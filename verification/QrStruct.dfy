/** Structured append of qrinput.c. */
module QrStruct {
  // An input too long for one symbol is cut into a series of symbols of the same version, each led
  // by a header that numbers it and carries the parity of the whole. The walk that cuts it goes by
  // estimates, and for Kanji these are too high: the split may refuse an entry that fits.
  import opened Arithmetic
  import opened QrSpec
  import opened QrBits
  import opened QrSegments
  import opened QrInput
  import GF256

  const MAX_SYMBOLS := 16

  /** Bits of a symbol that are left beside the header. */
  function Room(version: nat, level: Level): int {
    DataLength(version, level) * 8 - HEADER_BITS
  }

  // ----- how much of an entry fits -----

  /** Bytes of a mode that a payload of some bits would hold, negative with the payload. */
  function Holding(mode: Mode, payload: int): int {
    match mode
    case Num =>
      var chunks := TruncDiv(payload, 10);
      var remain := payload - chunks * 10;
      chunks * 3 + (if remain >= 7 then 2 else if remain >= 4 then 1 else 0)
    case An =>
      var chunks := TruncDiv(payload, 11);
      var remain := payload - chunks * 11;
      chunks * 2 + (if remain >= 6 then 1 else 0)
    case Eight => TruncDiv(payload, 8)
    case Kanji => TruncDiv(payload, 13) * 2
    case Structure => TruncDiv(payload, 8)
  }

  /** QRinput_lengthOfCode: bytes of an entry that fit into a number of bits. */
  function LengthOfCode(mode: Mode, version: nat, bits: int): nat {
    var size := Holding(mode, bits - 4 - LengthIndicator(mode, version));
    var maxsize := MaximumWords(mode, version);
    if size < 0 then 0 else if maxsize > 0 && size > maxsize then maxsize else size
  }

  /** lengthOfCode is the exact answer: n bytes with their mode indicator and length field fit if
      and only if n does not exceed it. */
  lemma LengthOfCodeExact(mode: Mode, version: nat, bits: int, n: nat)
    requires mode != Structure && 1 <= n <= MaximumWords(mode, version) && (mode == Kanji ==> n % 2 == 0)
    ensures 4 + LengthIndicator(mode, version) + EstimatePayload(mode, n) <= bits <==> n <= LengthOfCode(mode, version, bits)
  {
    hide LengthIndicator, MaximumWords, Holding, EstimatePayload;
    var payload := bits - 4 - LengthIndicator(mode, version);
    if payload < 0 {
      HoldingNothing(mode, payload);
    } else {
      match mode
      case Num => NumExact(payload, n);
      case An => AnExact(payload, n);
      case Eight => EightExact(payload, n);
      case Kanji => KanjiExact(payload, n);
    }
  }

  lemma HoldingNothing(mode: Mode, payload: int)
    requires payload < 0
    ensures Holding(mode, payload) <= 0
  {}

  lemma NumExact(payload: nat, n: nat)
    ensures EstimatePayload(Num, n) <= payload <==> n <= Holding(Num, payload)
  {
    var q, c := n / 3, payload / 10;
    assert n == 3 * q + n % 3 && payload == 10 * c + payload % 10;
  }

  lemma AnExact(payload: nat, n: nat)
    ensures EstimatePayload(An, n) <= payload <==> n <= Holding(An, payload)
  {
    var q, c := n / 2, payload / 11;
    assert n == 2 * q + n % 2 && payload == 11 * c + payload % 11;
  }

  lemma EightExact(payload: nat, n: nat)
    ensures EstimatePayload(Eight, n) <= payload <==> n <= Holding(Eight, payload)
  {}

  lemma KanjiExact(payload: nat, n: nat)
    requires n % 2 == 0
    ensures EstimatePayload(Kanji, n) <= payload <==> n <= Holding(Kanji, payload)
  {
    var q, c := n / 2, payload / 13;
    assert n == 2 * q && payload == 13 * c + payload % 13;
  }

  /** Bytes that the estimate takes one length field to announce. For Kanji the field counts codes of
      two bytes, but the estimate counts bytes. */
  function Announced(mode: Mode, version: nat): nat {
    Pow2(LengthIndicator(mode, version))
  }

  /** What is short enough for a symbol needs only one length field. The estimate is never below the
      real length, and above it exactly for long Kanji entries. */
  lemma EstimateExact(e: Entry, version: nat, level: Level)
    requires GoodEntry(e) && e.mode != Structure && 1 <= version <= VERSION_MAX
    requires EstimatePayload(e.mode, |e.data|) <= Room(version, level)
    ensures |e.data| <= MaximumWords(e.mode, version)
    ensures |EntryBits(e, version)| == 4 + LengthIndicator(e.mode, version) + EstimatePayload(e.mode, |e.data|) <= EstimateEntry(e, version)
    ensures |EntryBits(e, version)| == EstimateEntry(e, version) <==> |e.data| <= Announced(e.mode, version)
    ensures e.mode != Kanji ==> |e.data| <= Announced(e.mode, version)
  {
    hide EstimatePayload, Fields, Pow2, EntryBits, PayloadBits, LengthIndicator, MaximumWords, Announced, Room;
    var m := Announced(e.mode, version);
    KanjiEven(e);
    ShortField(e.mode, |e.data|, version, level);
    EstimateFields(e, version);
    EntryBitsWhole(e, version);
    PayloadLength(e);
    if |e.data| <= m {
      OneField(|e.data|, m);
    } else {
      MoreFields(|e.data|, m);
      MulMonotone(4 + LengthIndicator(e.mode, version), 2, Fields(|e.data|, m));
    }
  }

  /** A symbol holds less than a length field can announce. */
  lemma ShortField(mode: Mode, size: nat, version: nat, level: Level)
    requires 1 <= version <= VERSION_MAX && mode != Structure && EstimatePayload(mode, size) <= Room(version, level)
    requires mode == Kanji ==> size % 2 == 0
    ensures size <= MaximumWords(mode, version)
    ensures mode != Kanji ==> size <= Announced(mode, version)
  {
    hide DataLength, Pow2;
    DataLengthBounds(version, level);
    Pow2Values();
  }

  lemma EstimateFields(e: Entry, version: nat)
    requires e.mode != Structure && 1 <= version
    ensures 1 <= Announced(e.mode, version)
    ensures EstimateEntry(e, version)
         == EstimatePayload(e.mode, |e.data|) + (4 + LengthIndicator(e.mode, version)) * Fields(|e.data|, Announced(e.mode, version))
  {
    hide EstimatePayload, Fields, Pow2, LengthIndicator;
  }

  lemma OneField(n: nat, m: nat)
    requires 1 <= n <= m
    ensures Fields(n, m) == 1
  {
    Quotient(n + m - 1, m, 1, n - 1);
  }

  lemma MoreFields(n: nat, m: nat)
    requires 1 <= m < n
    ensures 2 <= Fields(n, m)
  {
    var q := Fields(n, m);
    if q < 2 {
      MulMonotone(m, q, 1);
    }
  }

  /** A payload that is too long stays too long when it is cut into pieces with headers. */
  lemma {:induction false} PayloadBelowReal(e: Entry, version: nat)
    requires GoodEntry(e) && e.mode != Structure
    ensures EstimatePayload(e.mode, |e.data|) <= |EntryBits(e, version)|
    decreases |e.data|
  {
    hide EstimatePayload, EntryBits, MaximumWords, PayloadBits, LengthIndicator;
    var words := MaximumWords(e.mode, version);
    if |e.data| <= words {
      EntryBitsWhole(e, version);
      PayloadLength(e);
    } else {
      EntryBitsCut(e, version);
      MaximumWordsEven(e.mode, version);
      PayloadBelowReal(Entry(e.mode, e.data[..words]), version);
      PayloadBelowReal(Entry(e.mode, e.data[words..]), version);
      PayloadAdds(e.mode, words, |e.data| - words);
    }
  }

  lemma PayloadAdds(mode: Mode, a: nat, b: nat)
    requires mode == Kanji ==> a % 2 == 0
    ensures EstimatePayload(mode, a + b) <= EstimatePayload(mode, a) + EstimatePayload(mode, b)
  {
    match mode
    case Num =>
      var p, q := a / 3, b / 3;
      assert a == 3 * p + a % 3 && b == 3 * q + b % 3;
      assert (a + b) / 3 == p + q + (a % 3 + b % 3) / 3;
    case An =>
    case Eight =>
    case Kanji =>
    case Structure =>
  }

  /** The smallest piece of an entry. */
  function Unit(mode: Mode): nat {
    if mode == Kanji then 2 else 1
  }

  /** An empty symbol has room for at least one piece of any entry. */
  lemma RoomForOne(mode: Mode, version: nat, level: Level)
    requires 1 <= version <= VERSION_MAX && mode != Structure
    ensures 4 + LengthIndicator(mode, version) + EstimatePayload(mode, Unit(mode)) <= Room(version, level)
    ensures Unit(mode) <= MaximumWords(mode, version)
  {
    hide DataLength;
    DataLengthBounds(version, level);
    MaximumWordsEven(mode, version);
  }

  /** An entry that fits behind `bits` bits, although its estimate does not. */
  predicate Misjudged(e: Entry, bits: nat, version: nat, level: Level)
    requires GoodEntry(e)
  {
    bits + |EntryBits(e, version)| <= Room(version, level) < bits + EstimateEntry(e, version)
  }

  /** Where an entry whose estimate does not fit is cut: strictly inside, so that both halves are
      entries, unless it is misjudged, and then nothing is left for the second half; in an empty
      symbol something always fits. */
  lemma CutInside(e: Entry, bits: nat, version: nat, level: Level)
    requires GoodEntry(e) && 1 <= version <= VERSION_MAX && bits <= Room(version, level)
    requires Room(version, level) < bits + EstimateEntry(e, version)
    ensures var n := LengthOfCode(e.mode, version, Room(version, level) - bits);
      && (|e.data| <= n <==> Misjudged(e, bits, version, level))
      && (|e.data| <= n ==> e.mode == Kanji && Announced(Kanji, version) < |e.data|)
      && (bits == 0 ==> 0 < n)
      && (0 < n < |e.data| && e.mode != Structure ==> GoodEntry(Entry(e.mode, e.data[..n])) && GoodEntry(Entry(e.mode, e.data[n..])))
  {
    hide DataLength, LengthOfCode, EstimateEntry, MaximumWords, LengthIndicator, EntryBits, EstimatePayload, Room, Announced;
    var free := Room(version, level) - bits;
    var n := LengthOfCode(e.mode, version, free);
    if e.mode == Structure {
      HeaderExact(e, version, level);
      HeaderHolding(version, free);
    } else {
      LengthOfCodeBelow(e.mode, version, free);
      KanjiEven(e);
      if |e.data| <= n {
        LengthOfCodeExact(e.mode, version, free, |e.data|);
        EstimateExact(e, version, level);
      } else if bits + |EntryBits(e, version)| <= Room(version, level) {
        PayloadBelowReal(e, version);
        EstimateExact(e, version, level);
        LengthOfCodeExact(e.mode, version, free, |e.data|);
      }
      if bits == 0 {
        RoomForOne(e.mode, version, level);
        LengthOfCodeExact(e.mode, version, free, Unit(e.mode));
      }
      if 0 < n < |e.data| {
        SliceChecks(e, n);
      }
    }
  }

  /** A structured-append header that an input brings along takes twenty bits, and it fits any empty
      symbol. */
  lemma HeaderExact(e: Entry, version: nat, level: Level)
    requires GoodEntry(e) && e.mode == Structure && 1 <= version <= VERSION_MAX
    ensures |EntryBits(e, version)| == EstimateEntry(e, version) == HEADER_BITS <= Room(version, level) && |e.data| == 3
  {
    hide ToBits, DataLength;
    EntryBitsWhole(e, version);
    DataLengthBounds(version, level);
  }

  /** Where no header fits, at most one of its bytes is thought to. */
  lemma HeaderHolding(version: nat, bits: int)
    requires bits < HEADER_BITS
    ensures LengthOfCode(Structure, version, bits) <= 1
  {}

  /** The first half of a cut fits. */
  lemma CutFits(e: Entry, bits: nat, version: nat, level: Level)
    requires GoodEntry(e) && e.mode != Structure && 1 <= version <= VERSION_MAX && bits <= Room(version, level)
    requires var n := LengthOfCode(e.mode, version, Room(version, level) - bits);
      0 < n < |e.data| && GoodEntry(Entry(e.mode, e.data[..n]))
    ensures var first := Entry(e.mode, e.data[..LengthOfCode(e.mode, version, Room(version, level) - bits)]);
      bits + |EntryBits(first, version)| <= Room(version, level) && FitsLength(first, version)
  {
    hide DataLength, LengthOfCode, EstimateEntry, MaximumWords, LengthIndicator, EntryBits, EstimatePayload, Room, Announced;
    var free := Room(version, level) - bits;
    var n := LengthOfCode(e.mode, version, free);
    LengthOfCodeBelow(e.mode, version, free);
    LengthOfCodeExact(e.mode, version, free, n);
    EstimateExact(Entry(e.mode, e.data[..n]), version, level);
  }

  lemma KanjiEven(e: Entry)
    requires GoodEntry(e)
    ensures e.mode == Kanji ==> |e.data| % 2 == 0
    ensures 1 <= |e.data|
  {
    if e.mode == Kanji {
      PairsEven(e.data);
    }
  }

  lemma {:induction false} PairsEven(data: seq<Byte>)
    requires IsKanjiString(data)
    ensures |data| % 2 == 0
  {
    if 2 <= |data| {
      PairsEven(data[2..]);
    }
  }

  lemma LengthOfCodeBelow(mode: Mode, version: nat, bits: int)
    requires mode != Structure
    ensures LengthOfCode(mode, version, bits) <= MaximumWords(mode, version)
    ensures mode == Kanji ==> LengthOfCode(mode, version, bits) % 2 == 0
  {
    hide MaximumWords, LengthIndicator, Holding;
    MaximumWordsEven(mode, version);
    HoldingEven(bits - 4 - LengthIndicator(mode, version));
  }

  lemma HoldingEven(payload: int)
    ensures Holding(Kanji, payload) % 2 == 0
  {
    hide TruncDiv;
  }

  // ----- the pieces -----

  function Total(entries: seq<Entry>): nat {
    if entries == [] then 0 else |entries[0].data| + Total(entries[1..])
  }

  /** What the walk comes to: pieces; or nothing, when it cannot cut an entry; or a header cut in two,
      of which the encoder reads bytes that are not there. */
  datatype Split = Pieces(pieces: seq<seq<Entry>>) | Stuck | Torn

  function Behind(piece: seq<Entry>, more: Split): (r: Split)
    ensures more.Pieces? ==> r == Pieces([piece] + more.pieces)
    ensures !more.Pieces? ==> r == more
  {
    if more.Pieces? then Pieces([piece] + more.pieces) else more
  }

  /** The walk over the list, from a symbol under construction that has used `bits` bits. */
  function Walk(current: seq<Entry>, list: seq<Entry>, bits: nat, version: nat, level: Level): (r: Split)
    requires Good(list) && 1 <= version <= VERSION_MAX && bits <= Room(version, level)
    ensures r.Pieces? ==> 1 <= |r.pieces|
    decreases Total(list), bits
  {
    if list == [] then Pieces([current])
    else
      var e := list[0];
      if bits + EstimateEntry(e, version) <= Room(version, level) then
        Accepted(e, bits, version, level);
        Walk(current + [e], list[1..], bits + |EntryBits(e, version)|, version, level)
      else
        CutInside(e, bits, version, level);
        RoomPositive(version, level);
        var n := LengthOfCode(e.mode, version, Room(version, level) - bits);
        if n == 0 then Behind(current, Walk([], list, 0, version, level))
        else if |e.data| <= n then Stuck
        else if e.mode == Structure then Torn
        else
          CutList(list, n);
          Behind(current + [Entry(e.mode, e.data[..n])], Walk([], CutTail(list, n), 0, version, level))
  }

  /** The list without the first n bytes of its first entry. */
  function CutTail(list: seq<Entry>, n: nat): seq<Entry>
    requires list != [] && n <= |list[0].data|
  {
    [Entry(list[0].mode, list[0].data[n..])] + list[1..]
  }

  lemma CutList(list: seq<Entry>, n: nat)
    requires Good(list) && list != [] && 0 < n < |list[0].data| && GoodEntry(Entry(list[0].mode, list[0].data[n..]))
    ensures Good(CutTail(list, n)) && Total(CutTail(list, n)) < Total(list)
  {
    hide GoodEntry;
    assert CutTail(list, n)[1..] == list[1..];
  }

  lemma RoomPositive(version: nat, level: Level)
    requires 1 <= version <= VERSION_MAX
    ensures 52 <= Room(version, level)
  {
    hide DataLength;
    DataLengthBounds(version, level);
  }

  lemma Accepted(e: Entry, bits: nat, version: nat, level: Level)
    requires GoodEntry(e) && 1 <= version <= VERSION_MAX
    requires bits + EstimateEntry(e, version) <= Room(version, level)
    ensures |EntryBits(e, version)| <= EstimateEntry(e, version) && 0 < |EntryBits(e, version)|
    ensures 0 < |e.data|
    ensures FitsLength(e, version)
  {
    hide DataLength, EntryBits, MaximumWords, Fields;
    if e.mode == Structure {
      HeaderExact(e, version, level);
    } else {
      EstimateAbovePayload(e, version);
      EstimateExact(e, version, level);
    }
  }

  lemma EstimateAbovePayload(e: Entry, version: nat)
    requires e.mode != Structure
    ensures EstimatePayload(e.mode, |e.data|) <= EstimateEntry(e, version)
  {
    hide Fields, EstimatePayload;
  }

  lemma WalkAccept(current: seq<Entry>, list: seq<Entry>, bits: nat, version: nat, level: Level)
    requires Good(list) && 1 <= version <= VERSION_MAX && bits <= Room(version, level)
    requires list != [] && bits + EstimateEntry(list[0], version) <= Room(version, level)
    ensures bits + |EntryBits(list[0], version)| <= Room(version, level) && Good(list[1..]) && Total(list[1..]) < Total(list)
    ensures Walk(current, list, bits, version, level)
         == Walk(current + [list[0]], list[1..], bits + |EntryBits(list[0], version)|, version, level)
  {
    hide DataLength, EstimateEntry, EntryBits, LengthOfCode, Room, GoodEntry;
    Accepted(list[0], bits, version, level);
  }

  lemma WalkCut(current: seq<Entry>, list: seq<Entry>, bits: nat, version: nat, level: Level, n: nat)
    requires Good(list) && 1 <= version <= VERSION_MAX && bits <= Room(version, level)
    requires list != [] && Room(version, level) < bits + EstimateEntry(list[0], version)
    requires n == LengthOfCode(list[0].mode, version, Room(version, level) - bits) && 0 < n < |list[0].data| && list[0].mode != Structure
    ensures GoodEntry(Entry(list[0].mode, list[0].data[..n])) && GoodEntry(Entry(list[0].mode, list[0].data[n..]))
    ensures Good(CutTail(list, n)) && Total(CutTail(list, n)) < Total(list) && 0 <= Room(version, level)
    ensures Walk(current, list, bits, version, level)
         == Behind(current + [Entry(list[0].mode, list[0].data[..n])], Walk([], CutTail(list, n), 0, version, level))
  {
    hide DataLength, EstimateEntry, EntryBits, LengthOfCode, Room, GoodEntry, CutTail;
    CutInside(list[0], bits, version, level);
    RoomPositive(version, level);
    CutList(list, n);
  }

  lemma WalkHandOver(current: seq<Entry>, list: seq<Entry>, bits: nat, version: nat, level: Level)
    requires Good(list) && 1 <= version <= VERSION_MAX && bits <= Room(version, level)
    requires list != [] && Room(version, level) < bits + EstimateEntry(list[0], version)
    requires LengthOfCode(list[0].mode, version, Room(version, level) - bits) == 0
    ensures 0 < bits && 0 <= Room(version, level)
    ensures Walk(current, list, bits, version, level) == Behind(current, Walk([], list, 0, version, level))
  {
    hide DataLength, EstimateEntry, EntryBits, LengthOfCode, Room, GoodEntry, CutTail;
    CutInside(list[0], bits, version, level);
    RoomPositive(version, level);
  }

  /** A misjudged entry ends the walk: there would be nothing behind the cut. */
  lemma WalkStuck(current: seq<Entry>, list: seq<Entry>, bits: nat, version: nat, level: Level)
    requires Good(list) && 1 <= version <= VERSION_MAX && bits <= Room(version, level)
    requires list != [] && Room(version, level) < bits + EstimateEntry(list[0], version)
    requires |list[0].data| <= LengthOfCode(list[0].mode, version, Room(version, level) - bits)
    ensures Walk(current, list, bits, version, level) == Stuck && Misjudged(list[0], bits, version, level)
  {
    hide DataLength, EstimateEntry, EntryBits, LengthOfCode, Room, CutTail, Misjudged;
    CutInside(list[0], bits, version, level);
    KanjiEven(list[0]);
  }

  /** A header that does not fit is handed over, or one of its bytes is cut off. */
  lemma WalkTorn(current: seq<Entry>, list: seq<Entry>, bits: nat, version: nat, level: Level)
    requires Good(list) && 1 <= version <= VERSION_MAX && bits <= Room(version, level)
    requires list != [] && Room(version, level) < bits + EstimateEntry(list[0], version)
    requires 0 < LengthOfCode(list[0].mode, version, Room(version, level) - bits) && list[0].mode == Structure
    ensures Walk(current, list, bits, version, level) == Torn
    ensures LengthOfCode(list[0].mode, version, Room(version, level) - bits) < |list[0].data|
  {
    hide DataLength, EstimateEntry, EntryBits, LengthOfCode, Room, CutTail, Misjudged;
    CutInside(list[0], bits, version, level);
  }

  lemma WalkEnd(current: seq<Entry>, bits: nat, version: nat, level: Level)
    requires 1 <= version <= VERSION_MAX && bits <= Room(version, level)
    ensures Walk(current, [], bits, version, level) == Pieces([current] + [])
  {
    hide Room;
  }

  // ----- what the pieces hold -----

  /** A byte of input with the mode it is to be encoded in. */
  datatype Char = Char(mode: Mode, byte: Byte)

  function Marked(mode: Mode, data: seq<Byte>): (r: seq<Char>)
    ensures |r| == |data|
  {
    seq(|data|, i requires 0 <= i < |data| => Char(mode, data[i]))
  }

  /** The bytes of a list of entries, headers aside. */
  function Text(entries: seq<Entry>): seq<Char> {
    if entries == [] then []
    else (if entries[0].mode == Structure then [] else Marked(entries[0].mode, entries[0].data)) + Text(entries[1..])
  }

  function AllText(pieces: seq<seq<Entry>>): seq<Char> {
    if pieces == [] then [] else Text(pieces[0]) + AllText(pieces[1..])
  }

  lemma {:induction false} TextJoin(a: seq<Entry>, b: seq<Entry>)
    ensures Text(a + b) == Text(a) + Text(b)
  {
    hide Marked;
    if a == [] {
      assert a + b == b;
    } else {
      assert (a + b)[1..] == a[1..] + b;
      TextJoin(a[1..], b);
    }
  }

  lemma TextOne(e: Entry)
    requires e.mode != Structure
    ensures Text([e]) == Marked(e.mode, e.data)
  {
    assert Text([e]) == Marked(e.mode, e.data) + Text([]);
  }

  lemma TextCut(e: Entry, n: nat)
    requires n <= |e.data| && e.mode != Structure
    ensures Text([e]) == Text([Entry(e.mode, e.data[..n])]) + Text([Entry(e.mode, e.data[n..])])
  {
    TextOne(e);
    TextOne(Entry(e.mode, e.data[..n]));
    TextOne(Entry(e.mode, e.data[n..]));
  }

  lemma AllTextJoin(piece: seq<Entry>, pieces: seq<seq<Entry>>)
    ensures AllText([piece] + pieces) == Text(piece) + AllText(pieces)
  {
    assert ([piece] + pieces)[1..] == pieces;
  }

  /** The bytes of the pieces, one after another, are the bytes of the input in their modes. */
  lemma {:induction false} PiecesKeepText(current: seq<Entry>, list: seq<Entry>, bits: nat, version: nat, level: Level)
    requires Good(list) && 1 <= version <= VERSION_MAX && bits <= Room(version, level)
    ensures var r := Walk(current, list, bits, version, level); r.Pieces? ==> AllText(r.pieces) == Text(current) + Text(list)
    decreases Total(list), bits
  {
    hide DataLength, EstimateEntry, EntryBits, LengthOfCode, Room, Text, AllText, GoodEntry, Walk, Total;
    NoText();
    if list == [] {
      WalkEnd(current, bits, version, level);
      AllTextJoin(current, []);
    } else {
      var e, more := list[0], list[1..];
      assert list == [e] + more;
      TextJoin([e], more);
      var n := LengthOfCode(e.mode, version, Room(version, level) - bits);
      if bits + EstimateEntry(e, version) <= Room(version, level) {
        WalkAccept(current, list, bits, version, level);
        PiecesKeepText(current + [e], more, bits + |EntryBits(e, version)|, version, level);
        TextJoin(current, [e]);
      } else if n == 0 {
        WalkHandOver(current, list, bits, version, level);
        PiecesKeepText([], list, 0, version, level);
        BehindText(current, Walk([], list, 0, version, level));
      } else if |e.data| <= n {
        WalkStuck(current, list, bits, version, level);
      } else if e.mode == Structure {
        WalkTorn(current, list, bits, version, level);
      } else {
        WalkCut(current, list, bits, version, level, n);
        PiecesKeepText([], CutTail(list, n), 0, version, level);
        BehindText(current + [Entry(e.mode, e.data[..n])], Walk([], CutTail(list, n), 0, version, level));
        TextCutHead(list, n);
        TextJoin(current, [Entry(e.mode, e.data[..n])]);
        TextJoin([Entry(e.mode, e.data[n..])], more);
      }
    }
  }

  lemma BehindText(piece: seq<Entry>, more: Split)
    ensures more.Pieces? ==> Behind(piece, more).Pieces? && AllText(Behind(piece, more).pieces) == Text(piece) + AllText(more.pieces)
  {
    hide Text, AllText;
    if more.Pieces? {
      AllTextJoin(piece, more.pieces);
    }
  }

  lemma TextCutHead(list: seq<Entry>, n: nat)
    requires list != [] && n <= |list[0].data| && list[0].mode != Structure
    ensures var e := list[0]; Text([e]) == Text([Entry(e.mode, e.data[..n])]) + Text([Entry(e.mode, e.data[n..])])
  {
    TextCut(list[0], n);
  }

  lemma NoText()
    ensures Text([]) == [] && AllText([]) == []
  {}

  /** A piece that fits a symbol beside the header, one length field for each entry. */
  predicate PieceFits(piece: seq<Entry>, version: nat, level: Level) {
    && Good(piece)
    && |StreamBits(piece, version)| <= Room(version, level)
    && forall i :: 0 <= i < |piece| ==> FitsLength(piece[i], version)
  }

  lemma {:induction false} StreamJoin(a: seq<Entry>, b: seq<Entry>, version: nat)
    requires Good(a) && Good(b)
    ensures StreamBits(a + b, version) == StreamBits(a, version) + StreamBits(b, version)
  {
    hide EntryBits, GoodEntry;
    if a == [] {
      assert a + b == b;
    } else {
      assert (a + b)[1..] == a[1..] + b;
      StreamJoin(a[1..], b, version);
    }
  }

  /** A symbol stays within its room when an entry joins it. */
  lemma PieceGrows(piece: seq<Entry>, e: Entry, version: nat, level: Level)
    requires PieceFits(piece, version, level) && GoodEntry(e) && FitsLength(e, version)
    requires |StreamBits(piece, version)| + |EntryBits(e, version)| <= Room(version, level)
    ensures PieceFits(piece + [e], version, level)
    ensures |StreamBits(piece + [e], version)| == |StreamBits(piece, version)| + |EntryBits(e, version)|
  {
    hide DataLength, EstimateEntry, EntryBits, GoodEntry, Room, MaximumWords;
    StreamJoin(piece, [e], version);
    assert StreamBits([e], version) == EntryBits(e, version) + [];
  }

  predicate AllFit(pieces: seq<seq<Entry>>, version: nat, level: Level) {
    forall k :: 0 <= k < |pieces| ==> PieceFits(pieces[k], version, level)
  }

  /** Every piece fits. */
  lemma {:induction false} PiecesFit(current: seq<Entry>, list: seq<Entry>, bits: nat, version: nat, level: Level)
    requires Good(list) && 1 <= version <= VERSION_MAX && bits <= Room(version, level)
    requires PieceFits(current, version, level) && bits == |StreamBits(current, version)|
    ensures var r := Walk(current, list, bits, version, level); r.Pieces? ==> AllFit(r.pieces, version, level)
    decreases Total(list), bits
  {
    hide DataLength, EstimateEntry, EntryBits, LengthOfCode, Room, PieceFits, StreamBits, GoodEntry, Walk, Total, MaximumWords;
    if list == [] {
      WalkEnd(current, bits, version, level);
    } else {
      var e, more := list[0], list[1..];
      EmptyFits(version, level);
      var n := LengthOfCode(e.mode, version, Room(version, level) - bits);
      if bits + EstimateEntry(e, version) <= Room(version, level) {
        WalkAccept(current, list, bits, version, level);
        Accepted(e, bits, version, level);
        PieceGrows(current, e, version, level);
        PiecesFit(current + [e], more, bits + |EntryBits(e, version)|, version, level);
      } else if n == 0 {
        WalkHandOver(current, list, bits, version, level);
        PiecesFit([], list, 0, version, level);
      } else if |e.data| <= n {
        WalkStuck(current, list, bits, version, level);
      } else if e.mode == Structure {
        WalkTorn(current, list, bits, version, level);
      } else {
        WalkCut(current, list, bits, version, level, n);
        CutFits(e, bits, version, level);
        PieceGrows(current, Entry(e.mode, e.data[..n]), version, level);
        PiecesFit([], CutTail(list, n), 0, version, level);
      }
    }
  }

  lemma EmptyFits(version: nat, level: Level)
    requires 1 <= version <= VERSION_MAX
    ensures PieceFits([], version, level) && StreamBits([], version) == [] && 0 <= Room(version, level)
  {
    RoomPositive(version, level);
  }

  /** No piece is empty, unless there is nothing to encode. */
  lemma {:induction false} PiecesNotEmpty(current: seq<Entry>, list: seq<Entry>, bits: nat, version: nat, level: Level)
    requires Good(list) && 1 <= version <= VERSION_MAX && bits <= Room(version, level)
    requires (current == [] ==> bits == 0) && (current != [] || list != [])
    ensures var r := Walk(current, list, bits, version, level); r.Pieces? ==> forall k :: 0 <= k < |r.pieces| ==> r.pieces[k] != []
    decreases Total(list), bits
  {
    hide DataLength, EstimateEntry, EntryBits, LengthOfCode, Room, GoodEntry, Walk, Total;
    if list == [] {
      WalkEnd(current, bits, version, level);
    } else {
      var e, more := list[0], list[1..];
      var n := LengthOfCode(e.mode, version, Room(version, level) - bits);
      if bits + EstimateEntry(e, version) <= Room(version, level) {
        WalkAccept(current, list, bits, version, level);
        PiecesNotEmpty(current + [e], more, bits + |EntryBits(e, version)|, version, level);
      } else if n == 0 {
        WalkHandOver(current, list, bits, version, level);
        PiecesNotEmpty([], list, 0, version, level);
      } else if |e.data| <= n {
        WalkStuck(current, list, bits, version, level);
      } else if e.mode == Structure {
        WalkTorn(current, list, bits, version, level);
      } else {
        WalkCut(current, list, bits, version, level, n);
        PiecesNotEmpty([], CutTail(list, n), 0, version, level);
      }
    }
  }

  // ----- headers -----

  /** Exclusive-or of bytes. */
  function Parity(text: seq<Char>): bv8 {
    if text == [] then 0 else GF256.Plus(GF256.Byte(text[0].byte), Parity(text[1..]))
  }

  lemma {:induction false} ParityJoin(a: seq<Char>, b: seq<Char>)
    ensures Parity(a + b) == GF256.Plus(Parity(a), Parity(b))
  {
    hide GF256.Plus, GF256.Byte;
    if a == [] {
      assert a + b == b;
      GF256.PlusLaws(0, Parity(b), 0);
      GF256.PlusLaws(Parity(b), 0, 0);
    } else {
      assert (a + b)[1..] == a[1..] + b;
      ParityJoin(a[1..], b);
      GF256.PlusLaws(GF256.Byte(a[0].byte), Parity(a[1..]), Parity(b));
    }
  }

  /** The header that insertStructuredAppendHeader puts before a piece. */
  function Header(size: nat, number: nat, parity: bv8): (e: Entry)
    requires 1 <= number <= size <= MAX_SYMBOLS
    ensures IsHeader(e) && GoodEntry(e)
  {
    Entry(Structure, [size, number, GF256.Value(parity)])
  }

  /** The symbols of a series: a single symbol has no header. */
  function Symbol(pieces: seq<seq<Entry>>, k: nat, parity: bv8): seq<Entry>
    requires k < |pieces| <= MAX_SYMBOLS
  {
    if |pieces| == 1 then pieces[k] else [Header(|pieces|, k + 1, parity)] + pieces[k]
  }

  lemma {:induction false} ChunksOfFitting(entries: seq<Entry>, version: nat)
    requires Good(entries) && forall i :: 0 <= i < |entries| ==> FitsLength(entries[i], version)
    ensures AllChunks(entries, version) == entries
  {
    hide GoodEntry, MaximumWords;
    if entries != [] {
      ChunksOfFitting(entries[1..], version);
      assert Chunks(entries[0], version) == [entries[0]];
      assert entries == [entries[0]] + entries[1..];
    }
  }

  lemma HeaderBits(h: Entry, piece: seq<Entry>, version: nat)
    requires IsHeader(h) && Good(piece)
    ensures Good([h] + piece) && |StreamBits([h] + piece, version)| == HEADER_BITS + |StreamBits(piece, version)|
  {
    hide ToBits, PayloadBits, MaximumWords;
    assert ([h] + piece)[1..] == piece;
    EntryBitsWhole(h, version);
  }

  /** Every symbol of a series, with its header, fits, and a reader finds in it exactly the header
      and the piece, whatever follows the terminator; Kanji codes come back canonical. */
  lemma SymbolReadsBack(pieces: seq<seq<Entry>>, k: nat, parity: bv8, version: nat, level: Level, rest: seq<bool>)
    requires k < |pieces| <= MAX_SYMBOLS && AllFit(pieces, version, level) && Ends(rest)
    ensures var symbol := Symbol(pieces, k, parity);
      && Good(symbol) && |StreamBits(symbol, version)| <= 8 * DataLength(version, level)
      && ReadStream(StreamBits(symbol, version) + rest, version) == Segments(ReadEntries(symbol))
      && (ReadStream(StreamBits(symbol, version) + rest, version) == Segments(symbol) <==> AllTrailingGood(symbol))
  {
    hide DataLength, StreamBits, ReadStream, ReadEntries, AllChunks, MaximumWords, Header, Ends, AllTrailingGood;
    var symbol := Symbol(pieces, k, parity);
    if |pieces| > 1 {
      HeaderBits(Header(|pieces|, k + 1, parity), pieces[k], version);
    }
    ReadStreamBack(symbol, version, rest);
    RoundTripExact(symbol, version, rest);
    ChunksOfFitting(symbol, version);
  }

  // ----- the objects -----

  /** A series of inputs. */
  class QRStruct {
    var parity: bv8
    var inputs: seq<QRinput>

    constructor (p: bv8)
      ensures parity == p && inputs == []
    {
      parity, inputs := p, [];
    }
  }

  /** QRinput_calcParity: headers are skipped, and each entry is read from its end. */
  method CalcParity(entries: seq<Entry>) returns (parity: bv8)
    ensures parity == Parity(Text(entries))
  {
    hide GF256.Plus, GF256.Byte, Parity, Marked, Text;
    parity := 0;
    var list := entries;
    NoParity();
    assert Text(entries) == Text(list);
    while list != []
      invariant GF256.Plus(parity, Parity(Text(list))) == Parity(Text(entries))
      decreases |list|
    {
      var e := list[0];
      TextStep(list);
      if e.mode != Structure {
        ghost var whole := Marked(e.mode, e.data);
        ghost var before := parity;
        GF256.PlusLaws(before, 0, 0);
        assert whole[|e.data|..] == [];
        var i := |e.data|;
        while i > 0
          invariant 0 <= i <= |e.data|
          invariant parity == GF256.Plus(before, Parity(whole[i..]))
        {
          i := i - 1;
          ParityStep(e, i);
          GF256.PlusLaws(before, Parity(whole[i + 1..]), GF256.Byte(e.data[i]));
          GF256.PlusLaws(Parity(whole[i + 1..]), GF256.Byte(e.data[i]), 0);
          parity := GF256.Plus(parity, GF256.Byte(e.data[i]));
        }
        assert whole[0..] == whole;
        ParityJoin(whole, Text(list[1..]));
        GF256.PlusLaws(before, Parity(whole), Parity(Text(list[1..])));
      }
      list := list[1..];
    }
    NoText();
    GF256.PlusLaws(parity, 0, 0);
  }

  lemma NoParity()
    ensures Parity([]) == 0
    ensures forall b: bv8 :: GF256.Plus(0, b) == b && GF256.Plus(b, 0) == b
  {}

  lemma TextStep(list: seq<Entry>)
    requires list != []
    ensures Text(list) == if list[0].mode == Structure then Text(list[1..]) else Marked(list[0].mode, list[0].data) + Text(list[1..])
  {
    assert [] + Text(list[1..]) == Text(list[1..]);
  }

  lemma ParityStep(e: Entry, i: nat)
    requires i < |e.data|
    ensures Parity(Marked(e.mode, e.data)[i..]) == GF256.Plus(GF256.Byte(e.data[i]), Parity(Marked(e.mode, e.data)[i + 1..]))
  {
    assert Marked(e.mode, e.data)[i..][1..] == Marked(e.mode, e.data)[i + 1..];
  }

  /** QRinput_insertStructuredAppendHeader. */
  method InsertHeader(input: QRinput, size: nat, number: nat, parity: bv8) returns (ok: bool)
    modifies input`entries
    ensures ok <==> 1 <= number <= size <= MAX_SYMBOLS
    ensures ok ==> input.entries == [Header(size, number, parity)] + old(input.entries)
    ensures !ok ==> input.entries == old(input.entries)
  {
    if size > MAX_SYMBOLS {
      return false;
    }
    if number <= 0 || number > size {
      return false;
    }
    input.entries := [Entry(Structure, [size, number, GF256.Value(parity)])] + input.entries;
    return true;
  }

  predicate Distinct(inputs: seq<QRinput>) {
    forall i, j :: 0 <= i < j < |inputs| ==> inputs[i] != inputs[j]
  }

  /** QRinput_Struct_insertStructuredAppendHeaders. */
  method InsertHeaders(s: QRStruct) returns (ok: bool)
    requires Distinct(s.inputs) && |s.inputs| >= 1
    modifies s.inputs`entries
    ensures ok <==> |s.inputs| <= MAX_SYMBOLS || |s.inputs| == 1
    ensures ok && |s.inputs| == 1 ==> s.inputs[0].entries == old(s.inputs[0].entries)
    ensures ok && |s.inputs| > 1 ==>
      forall k :: 0 <= k < |s.inputs| ==> s.inputs[k].entries == [Header(|s.inputs|, k + 1, s.parity)] + old(s.inputs[k].entries)
  {
    hide Header;
    var size := |s.inputs|;
    if size == 1 {
      return true;
    }
    for i := 0 to size
      invariant i <= MAX_SYMBOLS && (i == 0 || size <= MAX_SYMBOLS)
      invariant forall k :: 0 <= k < i ==> s.inputs[k].entries == [Header(size, k + 1, s.parity)] + old(s.inputs[k].entries)
      invariant forall k :: i <= k < size ==> s.inputs[k].entries == old(s.inputs[k].entries)
    {
      var done := InsertHeader(s.inputs[i], size, i + 1, s.parity);
      if !done {
        return false;
      }
    }
    return true;
  }

  /** The outcome of the split. */
  function SplitOf(entries: seq<Entry>, version: nat, level: Level): (r: Split)
    requires Good(entries) && 1 <= version <= VERSION_MAX
    ensures r.Pieces? ==> 1 <= |r.pieces|
  {
    RoomPositive(version, level);
    Walk([], entries, 0, version, level)
  }

  /** How a round of the walk ends. */
  datatype Round = Joined | Closed | Refused | HeaderTorn

  /** One round of the walk over the list: the next entry joins the symbol, or the symbol is
      closed, perhaps with the first part of the entry, or QRinput_splitEntry refuses the cut; the
      walk is not followed behind a cut through a header. */
  method NextRound(current: QRinput, list: seq<Entry>, bits: nat) returns (round: Round, list': seq<Entry>, bits': nat)
    requires Good(list) && list != [] && 1 <= current.version <= VERSION_MAX && bits <= Room(current.version, current.level)
    modifies current`entries
    ensures Good(list') && bits' <= Room(current.version, current.level)
    ensures round.Joined? || round.Closed? ==> Total(list') < Total(list) || (Total(list') == Total(list) && bits' < bits)
    ensures Walk(old(current.entries), list, bits, current.version, current.level)
      == match round
         case Joined => Walk(current.entries, list', bits', current.version, current.level)
         case Closed => Behind(current.entries, Walk([], list', bits', current.version, current.level))
         case Refused => Stuck
         case HeaderTorn => Torn
    ensures round.Closed? ==> bits' == 0
  {
    hide DataLength, EstimateEntry, EntryBits, LengthOfCode, Room, GoodEntry, Walk, Total, Behind, Misjudged;
    var version, level := current.version, current.level;
    var maxbits := Room(version, level);
    var e := list[0];
    var nextbits := EstimateEntry(e, version);
    if bits + nextbits <= maxbits {
      WalkAccept(current.entries, list, bits, version, level);
      var b := EncodeBitStream(e, version);
      current.entries := current.entries + [e];
      return Joined, list[1..], bits + b.data.Length;
    }
    var bytes := LengthOfCode(e.mode, version, maxbits - bits);
    if bytes > 0 {
      if e.mode == Structure {
        WalkTorn(current.entries, list, bits, version, level);
        return HeaderTorn, list, bits;
      }
      LengthOfCodeBelow(e.mode, version, maxbits - bits);
      var ok, first, second := SplitEntry(e, bytes);
      if !ok {
        WalkStuck(current.entries, list, bits, version, level);
        return Refused, list, bits;
      }
      WalkCut(current.entries, list, bits, version, level, bytes);
      current.entries := current.entries + [first];
      return Closed, [second] + list[1..], 0;
    }
    WalkHandOver(current.entries, list, bits, version, level);
    return Closed, list, 0;
  }

  /** QRinput_splitEntry: the second part must pass the check of a new entry, which wants a byte at
      least. */
  method SplitEntry(e: Entry, bytes: nat) returns (ok: bool, first: Entry, second: Entry)
    requires GoodEntry(e) && e.mode != Structure && 0 < bytes && (e.mode == Kanji ==> bytes % 2 == 0)
    ensures ok <==> bytes < |e.data|
    ensures ok ==> GoodEntry(first) && GoodEntry(second) && first.mode == second.mode == e.mode
    ensures ok ==> first.data + second.data == e.data && |first.data| == bytes
  {
    if |e.data| <= bytes {
      return false, e, e;
    }
    SliceChecks(e, bytes);
    return true, Entry(e.mode, e.data[..bytes]), Entry(e.mode, e.data[bytes..]);
  }

  /** The symbols that are done, and what the walk still makes. */
  function Ahead(done: seq<seq<Entry>>, more: Split): Split {
    if more.Pieces? then Pieces(done + more.pieces) else more
  }

  lemma AheadStep(done: seq<seq<Entry>>, piece: seq<Entry>, more: Split)
    ensures Ahead(done, Behind(piece, more)) == Ahead(done + [piece], more)
    ensures Ahead([], more) == more
  {
    if more.Pieces? {
      assert done + ([piece] + more.pieces) == done + [piece] + more.pieces;
    }
  }

  lemma AheadEnds(done: seq<seq<Entry>>, piece: seq<Entry>)
    ensures Ahead(done, Stuck) == Stuck && Ahead(done, Torn) == Torn
    ensures Ahead(done, Pieces([piece] + [])) == Pieces(done + [piece])
  {
    assert [piece] + [] == [piece];
  }

  lemma SplitStarts(entries: seq<Entry>, version: nat, level: Level)
    requires Good(entries) && 1 <= version <= VERSION_MAX
    ensures 0 <= Room(version, level) && SplitOf(entries, version, level) == Ahead([], Walk([], entries, 0, version, level))
  {
    hide Walk, Room;
    RoomPositive(version, level);
    AheadStep([], [], Walk([], entries, 0, version, level));
  }

  /** What comes out of the split; behind a cut through a header nothing is said. */
  datatype Outcome = Series | NoSeries | Overread

  /** The walk of QRinput_splitQRinputToStruct over a copy of the input. */
  method SplitPieces(input: QRinput, parity: bv8) returns (outcome: Outcome, s: QRStruct)
    requires input.Valid() && 1 <= input.version
    ensures fresh(s) && fresh(s.inputs) && Distinct(s.inputs) && s.parity == parity
    ensures outcome == match SplitOf(input.entries, input.version, input.level)
                       case Pieces(_) => Series
                       case Stuck => NoSeries
                       case Torn => Overread
    ensures outcome.Series? ==>
      var pieces := SplitOf(input.entries, input.version, input.level).pieces;
      && |s.inputs| == |pieces|
      && forall k :: 0 <= k < |pieces| ==>
           s.inputs[k].entries == pieces[k] && s.inputs[k].version == input.version && s.inputs[k].level == input.level
  {
    hide Room, Good, Walk, Total, GoodEntry, Behind, Ahead, SplitOf;
    var version, level := input.version, input.level;
    SplitStarts(input.entries, version, level);
    s := new QRStruct(parity);
    var current := new QRinput(version, level);
    var list, bits: nat := input.entries, 0;
    ghost var done: seq<seq<Entry>> := [];
    while list != []
      invariant fresh(s) && fresh(s.inputs) && fresh(current) && current !in s.inputs && Distinct(s.inputs)
      invariant s.parity == parity && Good(list) && bits <= Room(version, level)
      invariant current.version == version && current.level == level
      invariant |done| == |s.inputs|
      invariant forall k :: 0 <= k < |s.inputs| ==> s.inputs[k].entries == done[k] && s.inputs[k].version == version && s.inputs[k].level == level
      invariant SplitOf(input.entries, version, level) == Ahead(done, Walk(current.entries, list, bits, version, level))
      decreases Total(list), bits
    {
      var round;
      round, list, bits := NextRound(current, list, bits);
      if round.Refused? || round.HeaderTorn? {
        AheadEnds(done, []);
        return if round.Refused? then NoSeries else Overread, s;
      }
      if round.Closed? {
        var p := new QRinput(version, level);
        AheadStep(done, current.entries, Walk([], list, 0, version, level));
        done := done + [current.entries];
        s.inputs := s.inputs + [current];
        current := p;
      }
    }
    WalkEnd(current.entries, bits, version, level);
    AheadEnds(done, current.entries);
    s.inputs := s.inputs + [current];
    outcome := Series;
  }

  /** QRinput_splitQRinputToStruct: it fails for an input without a version, for a misjudged entry
      and for more than sixteen symbols, and leaves the input alone. */
  method SplitQRinputToStruct(input: QRinput) returns (outcome: Outcome, s: QRStruct)
    requires input.Valid()
    ensures fresh(s) && fresh(s.inputs)
    ensures outcome.Series? <==>
      1 <= input.version && SplitOf(input.entries, input.version, input.level).Pieces?
      && |SplitOf(input.entries, input.version, input.level).pieces| <= MAX_SYMBOLS
    ensures outcome.Overread? <==> 1 <= input.version && SplitOf(input.entries, input.version, input.level).Torn?
    ensures outcome.Series? ==>
      var pieces := SplitOf(input.entries, input.version, input.level).pieces;
      && |s.inputs| == |pieces|
      && forall k :: 0 <= k < |pieces| ==>
           && s.inputs[k].entries == Symbol(pieces, k, Parity(Text(input.entries)))
           && s.inputs[k].version == input.version && s.inputs[k].level == input.level
  {
    hide DataLength, Walk, SplitOf, GoodEntry, Header, Parity, Text;
    var parity := CalcParity(input.entries);
    s := new QRStruct(parity);
    var maxbits := Room(input.version, input.level);
    NoRoom(input.version, input.level);
    if maxbits <= 0 {
      return NoSeries, s;
    }
    outcome, s := SplitPieces(input, parity);
    if !outcome.Series? {
      return;
    }
    if |s.inputs| > MAX_SYMBOLS {
      return NoSeries, s;
    }
    var ok := InsertHeaders(s);
    outcome := if ok then Series else NoSeries;
  }

  lemma NoRoom(version: nat, level: Level)
    requires version <= VERSION_MAX
    ensures Room(version, level) <= 0 <==> version == 0
  {
    hide DataLength;
    if version >= 1 {
      RoomPositive(version, level);
    } else {
      NoData(level);
    }
  }

  lemma NoData(level: Level)
    ensures DataLength(0, level) == 0
  {}

  /** What a structured split promises, for every input that it accepts: the symbols together hold
      the bytes of the input in order and in their modes; each symbol fits the version it was made
      for; when there are several, each starts with a header that gives the total, its own number
      and the exclusive-or of all bytes; and the bits of each read back as the symbol. */
  lemma SplitIsFaithful(entries: seq<Entry>, version: nat, level: Level)
    requires Good(entries) && 1 <= version <= VERSION_MAX && SplitOf(entries, version, level).Pieces?
    ensures var pieces := SplitOf(entries, version, level).pieces;
      && AllText(pieces) == Text(entries)
      && AllFit(pieces, version, level)
      && (entries != [] ==> forall k :: 0 <= k < |pieces| ==> pieces[k] != [])
  {
    hide Walk, Text, AllText, Room, EntryBits, GoodEntry;
    RoomPositive(version, level);
    NoText();
    PiecesKeepText([], entries, 0, version, level);
    EmptyFits(version, level);
    PiecesFit([], entries, 0, version, level);
    assert [] + Text(entries) == Text(entries);
    if entries != [] {
      PiecesNotEmpty([], entries, 0, version, level);
    }
  }

  // ----- which inputs are refused -----

  /** What is left of an entry of `size` bytes when symbols full of n bytes are taken off it. */
  function LastPart(size: nat, n: nat): (r: nat)
    requires 0 < n
    ensures r <= size && (0 < size ==> 0 < r <= n) && (size <= n ==> r == size)
    decreases size
  {
    if size <= n then size else LastPart(size - n, n)
  }

  lemma {:induction false} LastPartEven(size: nat, n: nat)
    requires 0 < n && size % 2 == 0 && n % 2 == 0
    ensures LastPart(size, n) % 2 == 0
    decreases size
  {
    if n < size {
      LastPartEven(size - n, n);
    }
  }

  /** The part of an entry that comes to lie in the last of its symbols, when it starts a symbol. */
  function Last(e: Entry, version: nat, level: Level): (last: Entry)
    requires GoodEntry(e) && 1 <= version <= VERSION_MAX
    ensures GoodEntry(last) && last.mode == e.mode
  {
    var n := LengthOfCode(e.mode, version, Room(version, level));
    SomeFits(e, version, level);
    LastGood(e, n);
    Entry(e.mode, e.data[|e.data| - LastPart(|e.data|, n)..])
  }

  lemma LastGood(e: Entry, n: nat)
    requires GoodEntry(e) && 0 < n && (e.mode == Kanji ==> n % 2 == 0) && (e.mode == Structure ==> 3 <= n)
    ensures LastPart(|e.data|, n) <= |e.data|
    ensures GoodEntry(Entry(e.mode, e.data[|e.data| - LastPart(|e.data|, n)..]))
  {
    hide LastPart;
    var k := |e.data| - LastPart(|e.data|, n);
    KanjiEven(e);
    if e.mode == Kanji {
      LastPartEven(|e.data|, n);
    }
    if k == 0 {
      assert e.data[0..] == e.data;
    } else {
      SliceChecks(e, k);
    }
  }

  /** An entry that starts a symbol finds its place when the estimate of its last part fits. */
  predicate Placed(e: Entry, version: nat, level: Level)
    requires GoodEntry(e) && 1 <= version <= VERSION_MAX
  {
    EstimateEntry(Last(e, version, level), version) <= Room(version, level)
  }

  /** All entries of a list find their places, when `bits` bits of the first symbol are taken: a fold
      that keeps nothing but a number of bits. */
  predicate AllPlaced(list: seq<Entry>, bits: nat, version: nat, level: Level)
    requires Good(list) && 1 <= version <= VERSION_MAX && bits <= Room(version, level)
    decreases |list|, 0
  {
    if list == [] then true
    else
      var e, more := list[0], list[1..];
      var n := LengthOfCode(e.mode, version, Room(version, level) - bits);
      if bits + EstimateEntry(e, version) <= Room(version, level) then
        Accepted(e, bits, version, level);
        AllPlaced(more, bits + |EntryBits(e, version)|, version, level)
      else if n == 0 then AfterFresh(e, more, version, level)
      else if e.mode == Structure || |e.data| <= n then false
      else
        CutInside(e, bits, version, level);
        AfterFresh(Entry(e.mode, e.data[n..]), more, version, level)
  }

  /** The same when an entry starts a symbol and others follow. */
  predicate AfterFresh(e: Entry, more: seq<Entry>, version: nat, level: Level)
    requires GoodEntry(e) && Good(more) && 1 <= version <= VERSION_MAX
    decreases |more|, 1
  {
    Placed(e, version, level) && AllPlaced(more, LastBits(e, version, level), version, level)
  }

  /** Bits of its last part. */
  function LastBits(e: Entry, version: nat, level: Level): (bits: nat)
    requires GoodEntry(e) && 1 <= version <= VERSION_MAX && Placed(e, version, level)
    ensures bits <= Room(version, level)
  {
    Accepted(Last(e, version, level), 0, version, level);
    |EntryBits(Last(e, version, level), version)|
  }

  lemma SomeFits(e: Entry, version: nat, level: Level)
    requires GoodEntry(e) && 1 <= version <= VERSION_MAX
    ensures var n := LengthOfCode(e.mode, version, Room(version, level));
      0 < n && (e.mode == Kanji ==> n % 2 == 0) && (e.mode == Structure ==> 3 <= n)
  {
    hide DataLength, LengthIndicator, MaximumWords, EstimatePayload;
    RoomPositive(version, level);
    if e.mode != Structure {
      hide LengthOfCode, Room;
      RoomForOne(e.mode, version, level);
      LengthOfCodeExact(e.mode, version, Room(version, level), Unit(e.mode));
      LengthOfCodeBelow(e.mode, version, Room(version, level));
    } else {
      hide Room;
      HeaderRoom(version, Room(version, level));
    }
  }

  lemma HeaderRoom(version: nat, bits: int)
    requires 52 <= bits
    ensures 3 <= LengthOfCode(Structure, version, bits)
  {}

  /** An entry whose estimate fits an empty symbol is not cut. */
  lemma WholeFits(e: Entry, version: nat, level: Level)
    requires GoodEntry(e) && 1 <= version <= VERSION_MAX && EstimateEntry(e, version) <= Room(version, level)
    ensures |e.data| <= LengthOfCode(e.mode, version, Room(version, level))
  {
    hide DataLength, LengthOfCode, Room, LengthIndicator, MaximumWords, EstimatePayload, EstimateEntry, EntryBits, Announced;
    if e.mode == Structure {
      SomeFits(e, version, level);
      HeaderExact(e, version, level);
    } else {
      EstimateAbovePayload(e, version);
      EstimateExact(e, version, level);
      KanjiEven(e);
      LengthOfCodeExact(e.mode, version, Room(version, level), |e.data|);
    }
  }

  lemma LastWhole(e: Entry, version: nat, level: Level)
    requires GoodEntry(e) && 1 <= version <= VERSION_MAX && |e.data| <= LengthOfCode(e.mode, version, Room(version, level))
    ensures Last(e, version, level) == e
  {
    hide LengthOfCode, Room, GoodEntry, EstimateEntry;
    assert e.data[0..] == e.data;
  }

  lemma LastOfRest(e: Entry, version: nat, level: Level, n: nat)
    requires GoodEntry(e) && 1 <= version <= VERSION_MAX && n == LengthOfCode(e.mode, version, Room(version, level)) && 0 < n < |e.data|
    requires GoodEntry(Entry(e.mode, e.data[n..]))
    ensures Last(Entry(e.mode, e.data[n..]), version, level) == Last(e, version, level)
  {
    hide LengthOfCode, Room, GoodEntry, EstimateEntry;
    var rest, r := e.data[n..], LastPart(|e.data|, n);
    assert rest[|rest| - r..] == e.data[|e.data| - r..];
  }

  /** Exactly which lists of entries can be cut into symbols, from any state of the walk. */
  lemma {:induction false} SplitExactly(current: seq<Entry>, list: seq<Entry>, bits: nat, version: nat, level: Level)
    requires Good(list) && 1 <= version <= VERSION_MAX && bits <= Room(version, level)
    ensures Walk(current, list, bits, version, level).Pieces? <==> AllPlaced(list, bits, version, level)
    decreases Total(list), bits
  {
    hide DataLength, EstimateEntry, EntryBits, LengthOfCode, Room, GoodEntry, Walk, Total, Announced, Misjudged, Placed, Last, AfterFresh, Behind;
    if list == [] {
      WalkEnd(current, bits, version, level);
    } else {
      var e, more := list[0], list[1..];
      var n := LengthOfCode(e.mode, version, Room(version, level) - bits);
      if bits + EstimateEntry(e, version) <= Room(version, level) {
        WalkAccept(current, list, bits, version, level);
        SplitExactly(current + [e], more, bits + |EntryBits(e, version)|, version, level);
      } else if n == 0 {
        WalkHandOver(current, list, bits, version, level);
        FreshExactly(list, version, level);
      } else if e.mode == Structure {
        WalkTorn(current, list, bits, version, level);
      } else if |e.data| <= n {
        WalkStuck(current, list, bits, version, level);
      } else {
        WalkCut(current, list, bits, version, level, n);
        FreshExactly(CutTail(list, n), version, level);
        assert CutTail(list, n)[1..] == more;
      }
    }
  }

  /** The same from the start of a symbol. */
  lemma {:induction false} FreshExactly(list: seq<Entry>, version: nat, level: Level)
    requires Good(list) && list != [] && 1 <= version <= VERSION_MAX && 0 <= Room(version, level)
    ensures Walk([], list, 0, version, level).Pieces? <==> AfterFresh(list[0], list[1..], version, level)
    decreases Total(list), 0
  {
    hide DataLength, EstimateEntry, EntryBits, LengthOfCode, Room, GoodEntry, Walk, Total, Announced, Misjudged, Last, AllPlaced, Behind;
    var e, more := list[0], list[1..];
    var n := LengthOfCode(e.mode, version, Room(version, level));
    SomeFits(e, version, level);
    if EstimateEntry(e, version) <= Room(version, level) {
      WholeFits(e, version, level);
      LastWhole(e, version, level);
      WalkAccept([], list, 0, version, level);
      SplitExactly([] + [e], more, |EntryBits(e, version)|, version, level);
    } else if |e.data| <= n {
      LastWhole(e, version, level);
      WalkStuck([], list, 0, version, level);
    } else {
      NotHeader(e, version, level);
      WalkCut([], list, 0, version, level, n);
      LastOfRest(e, version, level, n);
      FreshExactly(CutTail(list, n), version, level);
      assert CutTail(list, n)[1..] == more;
    }
  }

  lemma NotHeader(e: Entry, version: nat, level: Level)
    requires GoodEntry(e) && 1 <= version <= VERSION_MAX && Room(version, level) < EstimateEntry(e, version)
    ensures e.mode != Structure
  {
    hide Room;
    RoomPositive(version, level);
  }

  /** The split of an input, exactly: it is cut into symbols if and only if all entries find their
      places. */
  lemma SplitOfExactly(entries: seq<Entry>, version: nat, level: Level)
    requires Good(entries) && 1 <= version <= VERSION_MAX
    ensures 0 <= Room(version, level) && (SplitOf(entries, version, level).Pieces? <==> AllPlaced(entries, 0, version, level))
  {
    hide Walk, AllPlaced, Room, GoodEntry;
    RoomPositive(version, level);
    SplitExactly([], entries, 0, version, level);
  }

  /** For a single entry: symbols are filled to the last byte, and the estimate of what is left then
      must fit. For Kanji it need not, although what is left fits. */
  lemma SingleEntrySplit(e: Entry, version: nat, level: Level)
    requires GoodEntry(e) && 1 <= version <= VERSION_MAX
    ensures SplitOf([e], version, level).Pieces? <==> EstimateEntry(Last(e, version, level), version) <= Room(version, level)
  {
    hide Walk, Last, Room, GoodEntry, EstimateEntry, EntryBits;
    RoomPositive(version, level);
    FreshExactly([e], version, level);
    assert [e][1..] == [];
  }

  /** No Kanji entry is longer than the estimate takes one length field to announce. */
  predicate Short(entries: seq<Entry>, version: nat) {
    forall i :: 0 <= i < |entries| ==> entries[i].mode == Kanji ==> |entries[i].data| <= Announced(Kanji, version)
  }

  predicate Headerless(entries: seq<Entry>) {
    forall i :: 0 <= i < |entries| ==> entries[i].mode != Structure
  }

  /** Then no cut is refused, and without headers none is torn. */
  lemma {:induction false} NeverStuck(current: seq<Entry>, list: seq<Entry>, bits: nat, version: nat, level: Level)
    requires Good(list) && 1 <= version <= VERSION_MAX && bits <= Room(version, level)
    ensures Short(list, version) ==> !Walk(current, list, bits, version, level).Stuck?
    ensures Headerless(list) ==> !Walk(current, list, bits, version, level).Torn?
    decreases Total(list), bits
  {
    hide DataLength, EstimateEntry, EntryBits, LengthOfCode, Room, GoodEntry, Walk, Total, Announced, Misjudged;
    if list == [] {
      WalkEnd(current, bits, version, level);
    } else {
      var e := list[0];
      var n := LengthOfCode(e.mode, version, Room(version, level) - bits);
      if bits + EstimateEntry(e, version) <= Room(version, level) {
        WalkAccept(current, list, bits, version, level);
        NeverStuck(current + [e], list[1..], bits + |EntryBits(e, version)|, version, level);
      } else {
        CutInside(e, bits, version, level);
        if n == 0 {
          WalkHandOver(current, list, bits, version, level);
          NeverStuck([], list, 0, version, level);
        } else if e.mode == Structure {
          WalkTorn(current, list, bits, version, level);
        } else if |e.data| <= n {
          WalkStuck(current, list, bits, version, level);
        } else {
          WalkCut(current, list, bits, version, level, n);
          NeverStuck([], CutTail(list, n), 0, version, level);
        }
      }
    }
  }

  /** An entry that would fit one symbol beside the header, and which the split refuses: 140 Kanji
      codes at version 9, level L. */
  lemma FittingRefused(e: Entry)
    requires GoodEntry(e) && e.mode == Kanji && |e.data| == 280
    ensures |EntryBits(e, 9)| <= Room(9, L)
    ensures SplitOf([e], 9, L).Stuck?
  {
    hide Walk, EntryBits, EstimateEntry, LengthOfCode, GoodEntry, Room, Misjudged;
    RoomNine();
    EstimateNine(e);
    EstimateExact(e, 9, L);
    SomeFits(e, 9, L);
    LengthOfCodeExact(Kanji, 9, Room(9, L), 280);
    WalkStuck([], [e], 0, 9, L);
  }

  lemma RoomNine()
    ensures Room(9, L) == 1836
  {}

  lemma EstimateNine(e: Entry)
    requires e.mode == Kanji && |e.data| == 280
    ensures EstimateEntry(e, 9) == 1844 && EstimatePayload(Kanji, 280) == 1820 && LengthIndicator(Kanji, 9) == 8 && MaximumWords(Kanji, 9) == 510
  {
    Pow2Values();
    assert Fields(280, 256) == 2;
  }

  /** A header behind 13 bytes is torn at version 1, level L: its first byte ends the first symbol. */
  lemma HeaderIsTorn(e: Entry, h: Entry)
    requires GoodEntry(e) && e.mode == Eight && |e.data| == 13 && GoodEntry(h) && h.mode == Structure
    ensures SplitOf([e, h], 1, L).Torn?
  {
    hide Walk, EntryBits, EstimateEntry, GoodEntry, Room, LengthOfCode, Misjudged;
    RoomOne();
    EstimateOne(e);
    EstimateExact(e, 1, L);
    WalkAccept([], [e, h], 0, 1, L);
    assert [e, h][1..] == [h];
    HeaderExact(h, 1, L);
    WalkTorn([] + [e], [h], 116, 1, L);
  }

  lemma RoomOne()
    ensures Room(1, L) == 132 && LengthOfCode(Structure, 1, 16) == 1
  {}

  lemma EstimateOne(e: Entry)
    requires e.mode == Eight && |e.data| == 13
    ensures EstimateEntry(e, 1) == 116 && EstimatePayload(Eight, 13) == 104 && LengthIndicator(Eight, 1) == 8
  {
    Pow2Values();
    assert Fields(13, 256) == 1;
  }
}
