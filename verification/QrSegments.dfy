/** The bits of entries, and a reader for them. */
module QrSegments {
  // The bit strings of qrinput.c, and a reader that follows section 8.4 of JIS X0510:2004: mode
  // indicator, length, payload, until the terminator.
  import opened QrSpec
  import opened QrBits

  /** An entry of the input list. */
  datatype Entry = Entry(mode: Mode, data: seq<Byte>)

  // ----- characters -----

  predicate IsDigitByte(c: Byte) {
    48 <= c <= 57
  }

  function DigitOf(c: Byte): (d: nat)
    requires IsDigitByte(c)
    ensures d < 10
  {
    (c as int) - 48
  }

  /** QRinput_lookAnTable: the value of a character in alphanumeric mode, or -1. */
  function AnValue(c: Byte): (v: int)
    ensures -1 <= v < 45
  {
    if IsDigitByte(c) then c - 48
    else if 65 <= c <= 90 then c - 55
    else if c == 32 then 36
    else if c == 36 then 37
    else if c == 37 then 38
    else if c == 42 then 39
    else if c == 43 then 40
    else if c == 45 then 41
    else if c == 46 then 42
    else if c == 47 then 43
    else if c == 58 then 44
    else -1
  }

  /** The character with a given alphanumeric value. */
  function AnChar(v: nat): Byte
    requires v < 45
  {
    if v < 10 then v + 48
    else if v < 36 then v + 55
    else if v == 36 then 32
    else if v == 37 then 36
    else if v == 38 then 37
    else if v == 39 then 42
    else if v == 40 then 43
    else if v == 41 then 45
    else if v == 42 then 46
    else if v == 43 then 47
    else 58
  }

  lemma AnCharValue(c: Byte)
    ensures 0 <= AnValue(c) ==> AnChar(AnValue(c)) == c
  {}

  /** A two-byte code that Kanji mode takes. */
  predicate IsKanjiPair(h: Byte, t: Byte) {
    var w := h * 256 + t;
    0x8140 <= w <= 0x9ffc || 0xe040 <= w <= 0xebbf
  }

  predicate IsKanjiString(data: seq<Byte>) {
    data == [] || (2 <= |data| && IsKanjiPair(data[0], data[1]) && IsKanjiString(data[2..]))
  }

  /** QRinput_check: the data suits the mode. */
  predicate Check(mode: Mode, data: seq<Byte>) {
    data != [] &&
    match mode
    case Num => forall i :: 0 <= i < |data| ==> IsDigitByte(data[i])
    case An => forall i :: 0 <= i < |data| ==> 0 <= AnValue(data[i])
    case Eight => true
    case Kanji => IsKanjiString(data)
    case Structure => true
  }

  // ----- encoding -----

  function NumBits(data: seq<Byte>): seq<bool>
    requires forall i :: 0 <= i < |data| ==> IsDigitByte(data[i])
  {
    if |data| == 0 then []
    else if |data| == 1 then ToBits(4, DigitOf(data[0]))
    else if |data| == 2 then ToBits(7, DigitOf(data[0]) * 10 + DigitOf(data[1]))
    else ToBits(10, DigitOf(data[0]) * 100 + DigitOf(data[1]) * 10 + DigitOf(data[2])) + NumBits(data[3..])
  }

  function AnBits(data: seq<Byte>): seq<bool>
    requires forall i :: 0 <= i < |data| ==> 0 <= AnValue(data[i])
  {
    if |data| == 0 then []
    else if |data| == 1 then ToBits(6, AnValue(data[0]))
    else ToBits(11, AnValue(data[0]) * 45 + AnValue(data[1])) + AnBits(data[2..])
  }

  /** The 13-bit value of a Kanji code. */
  function KanjiValue(h: Byte, t: Byte): nat
    requires IsKanjiPair(h, t)
  {
    var w := h * 256 + t - if h * 256 + t <= 0x9ffc then 0x8140 else 0xc140;
    w / 256 * 0xc0 + w % 256
  }

  function KanjiBits(data: seq<Byte>): seq<bool>
    requires IsKanjiString(data)
  {
    if data == [] then [] else ToBits(13, KanjiValue(data[0], data[1])) + KanjiBits(data[2..])
  }

  function PayloadBits(e: Entry): seq<bool>
    requires Check(e.mode, e.data) && e.mode != Structure
  {
    match e.mode
    case Num => NumBits(e.data)
    case An => AnBits(e.data)
    case Eight => ByteBits(e.data)
    case Kanji => KanjiBits(e.data)
  }

  function ModeId(mode: Mode): nat {
    match mode case Num => 1 case An => 2 case Eight => 4 case Kanji => 8 case Structure => 3
  }

  /** The number that the length field announces. */
  function Count(e: Entry): nat {
    if e.mode == Kanji then |e.data| / 2 else |e.data|
  }

  /** A structured-append header: total and position, both from 1 to 16, and parity. */
  predicate IsHeader(e: Entry) {
    e.mode == Structure && |e.data| == 3 && 1 <= e.data[1] <= e.data[0] <= 16
  }

  predicate GoodEntry(e: Entry) {
    Check(e.mode, e.data) && (e.mode == Structure ==> IsHeader(e))
  }

  /** One entry that fits one length field. */
  function ChunkBits(e: Entry, version: nat): seq<bool>
    requires GoodEntry(e)
  {
    if e.mode == Structure then
      ToBits(4, 3) + (ToBits(4, e.data[1] - 1) + (ToBits(4, e.data[0] - 1) + ToBits(8, e.data[2])))
    else
      ToBits(4, ModeId(e.mode)) + (ToBits(LengthIndicator(e.mode, version), Count(e)) + PayloadBits(e))
  }

  lemma {:induction false} KanjiSlice(data: seq<Byte>, k: nat)
    requires IsKanjiString(data) && k % 2 == 0 && k <= |data|
    ensures IsKanjiString(data[..k]) && IsKanjiString(data[k..])
  {
    if k == 0 {
      assert data[0..] == data && data[..0] == [];
    } else {
      var head, tail := data[..k], data[2..];
      KanjiSlice(tail, k - 2);
      assert head[2..] == tail[..k - 2];
      assert data[k..] == tail[k - 2..];
      assert head[0] == data[0] && head[1] == data[1];
    }
  }

  lemma {:induction false} KanjiEven(data: seq<Byte>)
    requires IsKanjiString(data)
    ensures |data| % 2 == 0
  {
    if data != [] {
      KanjiEven(data[2..]);
    }
  }

  lemma SliceChecks(e: Entry, k: nat)
    requires GoodEntry(e) && 0 < k < |e.data| && e.mode != Structure && (e.mode == Kanji ==> k % 2 == 0)
    ensures GoodEntry(Entry(e.mode, e.data[..k])) && GoodEntry(Entry(e.mode, e.data[k..]))
  {
    if e.mode == Kanji {
      KanjiSlice(e.data, k);
    }
  }

  lemma MaximumWordsEven(mode: Mode, version: nat)
    ensures mode != Structure ==> 0 < MaximumWords(mode, version)
    ensures mode == Kanji ==> MaximumWords(mode, version) % 2 == 0
  {
    Pow2Values();
  }

  /** An entry cut into pieces that each fit one length field. */
  function Chunks(e: Entry, version: nat): (r: seq<Entry>)
    requires GoodEntry(e)
    ensures forall i :: 0 <= i < |r| ==> GoodEntry(r[i])
    decreases |e.data|
  {
    var words := MaximumWords(e.mode, version);
    MaximumWordsEven(e.mode, version);
    if e.mode != Structure && words < |e.data| then
      SliceChecks(e, words);
      [Entry(e.mode, e.data[..words])] + Chunks(Entry(e.mode, e.data[words..]), version)
    else [e]
  }

  function ChunksBits(chunks: seq<Entry>, version: nat): seq<bool>
    requires forall i :: 0 <= i < |chunks| ==> GoodEntry(chunks[i])
  {
    if chunks == [] then [] else ChunkBits(chunks[0], version) + ChunksBits(chunks[1..], version)
  }

  function AllChunks(entries: seq<Entry>, version: nat): (r: seq<Entry>)
    requires forall i :: 0 <= i < |entries| ==> GoodEntry(entries[i])
    ensures forall i :: 0 <= i < |r| ==> GoodEntry(r[i])
  {
    if entries == [] then [] else Chunks(entries[0], version) + AllChunks(entries[1..], version)
  }

  /** The bit stream of an entry, and of a list of entries. */
  function EntryBits(e: Entry, version: nat): seq<bool>
    requires GoodEntry(e)
  {
    ChunksBits(Chunks(e, version), version)
  }

  function StreamBits(entries: seq<Entry>, version: nat): seq<bool>
    requires forall i :: 0 <= i < |entries| ==> GoodEntry(entries[i])
  {
    if entries == [] then [] else EntryBits(entries[0], version) + StreamBits(entries[1..], version)
  }

  // ----- reading -----

  datatype Read<T> = Read(value: T, rest: seq<bool>) | Malformed

  function Then(data: seq<Byte>, r: Read<seq<Byte>>): Read<seq<Byte>> {
    match r case Read(more, rest) => Read(data + more, rest) case Malformed => Malformed
  }

  function ReadNum(count: nat, bits: seq<bool>): Read<seq<Byte>> {
    var need := if count >= 3 then 10 else if count == 2 then 7 else if count == 1 then 4 else 0;
    if |bits| < need then Malformed
    else
      var v := FromBits(bits[..need]);
      if count == 0 then Read([], bits)
      else if count == 1 then (if v < 10 then Read([v + 48], bits[4..]) else Malformed)
      else if count == 2 then (if v < 100 then Read([v / 10 + 48, v % 10 + 48], bits[7..]) else Malformed)
      else if v < 1000 then Then([v / 100 + 48, v / 10 % 10 + 48, v % 10 + 48], ReadNum(count - 3, bits[10..]))
      else Malformed
  }

  function ReadAn(count: nat, bits: seq<bool>): Read<seq<Byte>> {
    var need := if count >= 2 then 11 else if count == 1 then 6 else 0;
    if |bits| < need then Malformed
    else
      var v := FromBits(bits[..need]);
      if count == 0 then Read([], bits)
      else if count == 1 then (if v < 45 then Read([AnChar(v)], bits[6..]) else Malformed)
      else if v < 45 * 45 then Then([AnChar(v / 45), AnChar(v % 45)], ReadAn(count - 2, bits[11..]))
      else Malformed
  }

  function ReadBytes(count: nat, bits: seq<bool>): Read<seq<Byte>> {
    if count == 0 then Read([], bits)
    else if |bits| < 8 then Malformed
    else
      Pow2Values();
      Then([FromBits(bits[..8])], ReadBytes(count - 1, bits[8..]))
  }

  /** The Kanji code of a 13-bit value. */
  function KanjiCode(v: nat): nat {
    var w := v / 0xc0 * 256 + v % 0xc0;
    w + if w + 0x8140 <= 0x9ffc then 0x8140 else 0xc140
  }

  function ReadKanji(count: nat, bits: seq<bool>): Read<seq<Byte>> {
    if count == 0 then Read([], bits)
    else if |bits| < 13 then Malformed
    else
      var code := KanjiCode(FromBits(bits[..13]));
      if code < 0x1_0000 then Then([code / 256, code % 256], ReadKanji(count - 1, bits[13..])) else Malformed
  }

  function ModeOf(id: nat): (m: Mode)
    requires id == 1 || id == 2 || id == 3 || id == 4 || id == 8
    ensures ModeId(m) == id
  {
    if id == 1 then Num else if id == 2 then An else if id == 4 then Eight else if id == 8 then Kanji else Structure
  }

  function ReadPayload(mode: Mode, count: nat, bits: seq<bool>): Read<seq<Byte>>
    requires mode != Structure
  {
    match mode
    case Num => ReadNum(count, bits)
    case An => ReadAn(count, bits)
    case Eight => ReadBytes(count, bits)
    case Kanji => ReadKanji(count, bits)
  }

  /** One segment, whose mode indicator has been read. */
  function ReadSegment(mode: Mode, bits: seq<bool>, version: nat): Read<Entry> {
    if mode == Structure then
      if |bits| < 16 then Malformed
      else
        Pow2Values();
        Read(Entry(Structure, [FromBits(bits[4..8]) + 1, FromBits(bits[..4]) + 1, FromBits(bits[8..16])]), bits[16..])
    else
      var l := LengthIndicator(mode, version);
      if |bits| < l then Malformed
      else
        match ReadPayload(mode, FromBits(bits[..l]), bits[l..])
        case Read(data, rest) => Read(Entry(mode, data), rest)
        case Malformed => Malformed
  }

  datatype Segments = Segments(entries: seq<Entry>) | Unreadable

  /** Reads segments until the terminator, or until fewer than four bits are left. */
  function ReadStream(bits: seq<bool>, version: nat): Segments
    decreases |bits|
  {
    if |bits| < 4 then Segments([])
    else
      var id := FromBits(bits[..4]);
      if id == 0 then Segments([])
      else if id != 1 && id != 2 && id != 3 && id != 4 && id != 8 then Unreadable
      else
        match ReadSegment(ModeOf(id), bits[4..], version)
        case Malformed => Unreadable
        case Read(e, rest) =>
          if |rest| >= |bits| then Unreadable
          else match ReadStream(rest, version) case Segments(more) => Segments([e] + more) case Unreadable => Unreadable
  }

  // ----- reading undoes writing -----

  lemma TakeDrop(a: seq<bool>, b: seq<bool>)
    ensures (a + b)[..|a|] == a && (a + b)[|a|..] == b
  {}

  lemma ReadBack(n: nat, num: nat, rest: seq<bool>)
    requires num < Pow2(n)
    ensures var s := ToBits(n, num) + rest; |s| == n + |rest| && FromBits(s[..n]) == num && s[n..] == rest
  {
    FromToBits(n, num);
    TakeDrop(ToBits(n, num), rest);
  }

  lemma {:induction false} ReadNumBack(data: seq<Byte>, rest: seq<bool>)
    requires forall i :: 0 <= i < |data| ==> IsDigitByte(data[i])
    ensures ReadNum(|data|, NumBits(data) + rest) == Read(data, rest)
  {
    hide FromBits, ToBits;
    Pow2Values();
    if |data| == 0 {
      assert NumBits(data) + rest == rest;
    } else if |data| == 1 {
      ReadBack(4, DigitOf(data[0]), rest);
      assert data == [DigitOf(data[0]) + 48];
    } else if |data| == 2 {
      ReadBack(7, DigitOf(data[0]) * 10 + DigitOf(data[1]), rest);
      assert data == [DigitOf(data[0]) + 48, DigitOf(data[1]) + 48];
    } else {
      ReadNumBack(data[3..], rest);
      ReadThreeBack(data, rest);
    }
  }

  lemma ReadThreeBack(data: seq<Byte>, rest: seq<bool>)
    requires 3 <= |data| && forall i :: 0 <= i < |data| ==> IsDigitByte(data[i])
    requires ReadNum(|data| - 3, NumBits(data[3..]) + rest) == Read(data[3..], rest)
    ensures ReadNum(|data|, NumBits(data) + rest) == Read(data, rest)
  {
    hide FromBits, ToBits, Pow2;
    var v := DigitOf(data[0]) * 100 + DigitOf(data[1]) * 10 + DigitOf(data[2]);
    var tail := NumBits(data[3..]) + rest;
    assert NumBits(data) + rest == ToBits(10, v) + tail;
    assert v < Pow2(10) by { Pow2Values(); }
    ReadBack(10, v, tail);
    ThreeDigits(DigitOf(data[0]), DigitOf(data[1]), DigitOf(data[2]));
    assert data == [DigitOf(data[0]) + 48, DigitOf(data[1]) + 48, DigitOf(data[2]) + 48] + data[3..];
  }

  lemma ThreeDigits(a: nat, b: nat, c: nat)
    requires a < 10 && b < 10 && c < 10
    ensures var v := a * 100 + b * 10 + c; v / 100 == a && v / 10 % 10 == b && v % 10 == c
  {}

  lemma {:induction false} ReadAnBack(data: seq<Byte>, rest: seq<bool>)
    requires forall i :: 0 <= i < |data| ==> 0 <= AnValue(data[i])
    ensures ReadAn(|data|, AnBits(data) + rest) == Read(data, rest)
  {
    hide FromBits, ToBits, AnValue, AnChar;
    Pow2Values();
    if |data| == 0 {
      assert AnBits(data) + rest == rest;
    } else if |data| == 1 {
      AnCharValue(data[0]);
      ReadBack(6, AnValue(data[0]), rest);
      assert data == [data[0]];
    } else {
      AnCharValue(data[0]);
      AnCharValue(data[1]);
      var v := AnValue(data[0]) * 45 + AnValue(data[1]);
      var tail := AnBits(data[2..]) + rest;
      assert AnBits(data) + rest == ToBits(11, v) + tail;
      ReadBack(11, v, tail);
      ReadAnBack(data[2..], rest);
      assert v / 45 == AnValue(data[0]) && v % 45 == AnValue(data[1]);
      assert data == [data[0], data[1]] + data[2..];
    }
  }

  lemma {:induction false} ReadBytesBack(data: seq<Byte>, rest: seq<bool>)
    ensures ReadBytes(|data|, ByteBits(data) + rest) == Read(data, rest)
  {
    hide FromBits, ToBits;
    Pow2Values();
    if data == [] {
      assert ByteBits(data) + rest == rest;
    } else {
      var tail := ByteBits(data[1..]) + rest;
      assert ByteBits(data) + rest == ToBits(8, data[0]) + tail;
      ReadBack(8, data[0], tail);
      ReadBytesBack(data[1..], rest);
      assert data == [data[0]] + data[1..];
    }
  }

  /** What reading makes of a Kanji code: a trailing byte below 0x40, which the 16-bit range test
      of QRinput_checkModeKanji lets through, comes back as another one. */
  function ReadTrailing(t: Byte): Byte {
    if t < 0x40 then t + 0x40 else t
  }

  lemma KanjiCodeOfValue(h: Byte, t: Byte)
    requires IsKanjiPair(h, t)
    ensures KanjiValue(h, t) < 8192 && KanjiCode(KanjiValue(h, t)) == h * 256 + ReadTrailing(t)
  {
    var code := h * 256 + t;
    var base := if code <= 0x9ffc then 0x8140 else 0xc140;
    var w := code - base;
    var high, low := w / 256, w % 256;
    if 0x40 <= t {
      assert low == t - 0x40 && high == h - base / 256;
    } else {
      assert low == t + 0xc0 && high == h - base / 256 - 1;
    }
    var v := high * 0xc0 + low;
    if low < 0xc0 {
      assert v / 0xc0 == high && v % 0xc0 == low;
    } else {
      assert v / 0xc0 == high + 1 && v % 0xc0 == low - 0xc0;
    }
  }

  function Canonical(data: seq<Byte>): (r: seq<Byte>)
    ensures |r| == |data|
  {
    if |data| < 2 then data else [data[0], ReadTrailing(data[1])] + Canonical(data[2..])
  }

  predicate TrailingBytesGood(data: seq<Byte>) {
    |data| < 2 || (0x40 <= data[1] && TrailingBytesGood(data[2..]))
  }

  /** Kanji data comes back unchanged exactly when no trailing byte is below 0x40. */
  lemma {:induction false} CanonicalIff(data: seq<Byte>)
    ensures Canonical(data) == data <==> TrailingBytesGood(data)
  {
    if |data| < 2 {
    } else {
      CanonicalIff(data[2..]);
      assert data == [data[0], data[1]] + data[2..];
      assert Canonical(data)[2..] == Canonical(data[2..]) && Canonical(data)[1] == ReadTrailing(data[1]);
    }
  }

  lemma {:induction false} ReadKanjiBack(data: seq<Byte>, rest: seq<bool>)
    requires IsKanjiString(data)
    ensures ReadKanji(|data| / 2, KanjiBits(data) + rest) == Read(Canonical(data), rest)
  {
    hide FromBits, ToBits, KanjiCode, KanjiValue, ReadTrailing;
    Pow2Values();
    if data == [] {
      assert KanjiBits(data) + rest == rest;
    } else {
      var v := KanjiValue(data[0], data[1]);
      var tail := KanjiBits(data[2..]) + rest;
      assert KanjiBits(data) + rest == ToBits(13, v) + tail;
      KanjiCodeOfValue(data[0], data[1]);
      ReadBack(13, v, tail);
      ReadKanjiBack(data[2..], rest);
      CodeBytes(data[0], ReadTrailing(data[1]));
    }
  }

  lemma CodeBytes(h: Byte, t: Byte)
    ensures (h * 256 + t) / 256 == h && (h * 256 + t) % 256 == t && h * 256 + t < 0x1_0000
  {}

  /** The entry that reading gives back. */
  function ReadEntry(e: Entry): Entry {
    if e.mode == Kanji then Entry(Kanji, Canonical(e.data)) else e
  }

  function ReadEntries(entries: seq<Entry>): (r: seq<Entry>)
    ensures |r| == |entries|
  {
    seq(|entries|, i requires 0 <= i < |entries| => ReadEntry(entries[i]))
  }

  /** One length field can announce the entry. */
  predicate FitsLength(e: Entry, version: nat) {
    e.mode == Structure || |e.data| <= MaximumWords(e.mode, version)
  }

  lemma ReadPayloadBack(e: Entry, rest: seq<bool>)
    requires GoodEntry(e) && e.mode != Structure
    ensures ReadPayload(e.mode, Count(e), PayloadBits(e) + rest) == Read(ReadEntry(e).data, rest)
  {
    hide ReadNum, ReadAn, ReadBytes, ReadKanji, NumBits, AnBits, ByteBits, KanjiBits, Canonical;
    match e.mode
    case Num => ReadNumBack(e.data, rest);
    case An => ReadAnBack(e.data, rest);
    case Eight => ReadBytesBack(e.data, rest);
    case Kanji => ReadKanjiBack(e.data, rest);
  }

  lemma CountFits(e: Entry, version: nat)
    requires GoodEntry(e) && FitsLength(e, version) && e.mode != Structure
    ensures Count(e) < Pow2(LengthIndicator(e.mode, version))
  {}

  /** Reading one chunk, whatever follows it. */
  lemma ReadChunkBack(e: Entry, version: nat, rest: seq<bool>)
    requires GoodEntry(e) && FitsLength(e, version)
    ensures var s := ChunkBits(e, version) + rest;
      4 < |s| && |rest| < |s| && FromBits(s[..4]) == ModeId(e.mode) && ReadSegment(e.mode, s[4..], version) == Read(ReadEntry(e), rest)
  {
    Pow2Values();
    if e.mode == Structure {
      ReadHeaderBack(e, version, rest);
    } else {
      hide FromBits, ToBits, ReadPayload, PayloadBits, LengthIndicator;
      var l, count, payload := LengthIndicator(e.mode, version), Count(e), PayloadBits(e);
      var tail := payload + rest;
      CountFits(e, version);
      assert ChunkBits(e, version) + rest == ToBits(4, ModeId(e.mode)) + (ToBits(l, count) + tail);
      ReadBack(4, ModeId(e.mode), ToBits(l, count) + tail);
      ReadBack(l, count, tail);
      ReadPayloadBack(e, rest);
      LengthPositive(e.mode, version);
    }
  }

  lemma LengthPositive(mode: Mode, version: nat)
    requires mode != Structure
    ensures 1 <= LengthIndicator(mode, version)
  {}

  lemma ReadHeaderBack(e: Entry, version: nat, rest: seq<bool>)
    requires IsHeader(e)
    ensures var s := ChunkBits(e, version) + rest;
      4 < |s| && |rest| < |s| && FromBits(s[..4]) == 3 && ReadSegment(Structure, s[4..], version) == Read(e, rest)
  {
    hide FromBits, ToBits;
    Pow2Values();
    var i, n: nat, p := e.data[1] - 1, e.data[0] - 1, e.data[2];
    var s3 := ToBits(8, p) + rest;
    var s2 := ToBits(4, n) + s3;
    var s1 := ToBits(4, i) + s2;
    assert ChunkBits(e, version) + rest == ToBits(4, 3) + s1;
    ReadBack(4, 3, s1);
    ReadBack(4, i, s2);
    ReadBack(4, n, s3);
    ReadBack(8, p, rest);
    assert e.data == [e.data[0], e.data[1], e.data[2]];
    assert s1[4..8] == s2[..4] && s1[8..16] == s3[..8] && s1[16..] == s3[8..];
  }

  /** The text from which nothing more is read: fewer than four bits, or the terminator. */
  predicate Ends(rest: seq<bool>) {
    |rest| < 4 || FromBits(rest[..4]) == 0
  }

  lemma {:induction false} ReadChunksBack(chunks: seq<Entry>, version: nat, rest: seq<bool>)
    requires forall i :: 0 <= i < |chunks| ==> GoodEntry(chunks[i]) && FitsLength(chunks[i], version)
    requires Ends(rest)
    ensures ReadStream(ChunksBits(chunks, version) + rest, version) == Segments(ReadEntries(chunks))
  {
    hide FromBits, ChunkBits, ReadSegment, ReadEntry, ReadStream, ModeId, GoodEntry, FitsLength, Ends;
    if chunks == [] {
      assert ChunksBits(chunks, version) + rest == rest;
      EndReads(rest, version);
    } else {
      var e := chunks[0];
      var tail := ChunksBits(chunks[1..], version) + rest;
      var s := ChunksBits(chunks, version) + rest;
      assert s == ChunkBits(e, version) + tail;
      ReadChunkBack(e, version, tail);
      ReadChunksBack(chunks[1..], version, rest);
      ReadStreamStep(s, e.mode, version);
      assert ReadEntries(chunks) == [ReadEntry(e)] + ReadEntries(chunks[1..]);
    }
  }

  lemma ReadStreamStep(s: seq<bool>, mode: Mode, version: nat)
    requires 4 < |s| && FromBits(s[..4]) == ModeId(mode)
    requires ReadSegment(mode, s[4..], version).Read? && |ReadSegment(mode, s[4..], version).rest| < |s|
    ensures var r := ReadSegment(mode, s[4..], version);
      ReadStream(s, version) == match ReadStream(r.rest, version)
                                case Segments(more) => Segments([r.value] + more)
                                case Unreadable => Unreadable
  {
    hide FromBits, ReadSegment;
    assert ModeOf(ModeId(mode)) == mode;
  }

  lemma EndReads(rest: seq<bool>, version: nat)
    requires Ends(rest)
    ensures ReadStream(rest, version) == Segments([])
  {}

  // ----- entries longer than one length field -----

  lemma {:induction false} ChunksFit(e: Entry, version: nat)
    requires GoodEntry(e)
    ensures forall i :: 0 <= i < |Chunks(e, version)| ==> FitsLength(Chunks(e, version)[i], version)
    ensures forall i :: 0 <= i < |Chunks(e, version)| ==> Chunks(e, version)[i].mode == e.mode
    decreases |e.data|
  {
    hide LengthIndicator;
    var words := MaximumWords(e.mode, version);
    MaximumWordsEven(e.mode, version);
    if e.mode != Structure && words < |e.data| {
      SliceChecks(e, words);
      ChunksFit(Entry(e.mode, e.data[words..]), version);
    }
  }

  function DataOf(entries: seq<Entry>): seq<Byte> {
    if entries == [] then [] else entries[0].data + DataOf(entries[1..])
  }

  /** Cutting an entry loses no data. */
  lemma {:induction false} ChunksKeepData(e: Entry, version: nat)
    requires GoodEntry(e)
    ensures DataOf(Chunks(e, version)) == e.data
    decreases |e.data|
  {
    hide MaximumWords;
    var words := MaximumWords(e.mode, version);
    MaximumWordsEven(e.mode, version);
    if e.mode != Structure && words < |e.data| {
      SliceChecks(e, words);
      var tail := Entry(e.mode, e.data[words..]);
      ChunksKeepData(tail, version);
      assert ([Entry(e.mode, e.data[..words])] + Chunks(tail, version))[1..] == Chunks(tail, version);
    } else {
      assert Chunks(e, version) == [e];
      assert DataOf([e]) == e.data + DataOf([]);
    }
  }

  lemma {:induction false} AllChunksFit(entries: seq<Entry>, version: nat)
    requires forall i :: 0 <= i < |entries| ==> GoodEntry(entries[i])
    ensures forall i :: 0 <= i < |AllChunks(entries, version)| ==> FitsLength(AllChunks(entries, version)[i], version)
  {
    hide FitsLength, Chunks, GoodEntry;
    if entries != [] {
      ChunksFit(entries[0], version);
      AllChunksFit(entries[1..], version);
    }
  }

  lemma {:induction false} ChunksBitsJoin(a: seq<Entry>, b: seq<Entry>, version: nat)
    requires forall i :: 0 <= i < |a| ==> GoodEntry(a[i])
    requires forall i :: 0 <= i < |b| ==> GoodEntry(b[i])
    ensures ChunksBits(a + b, version) == ChunksBits(a, version) + ChunksBits(b, version)
  {
    hide ChunkBits, GoodEntry;
    if a == [] {
      assert a + b == b;
    } else {
      assert (a + b)[1..] == a[1..] + b;
      ChunksBitsJoin(a[1..], b, version);
    }
  }

  lemma {:induction false} StreamIsChunks(entries: seq<Entry>, version: nat)
    requires forall i :: 0 <= i < |entries| ==> GoodEntry(entries[i])
    ensures StreamBits(entries, version) == ChunksBits(AllChunks(entries, version), version)
  {
    hide ChunkBits, GoodEntry, Chunks;
    if entries != [] {
      StreamIsChunks(entries[1..], version);
      ChunksBitsJoin(Chunks(entries[0], version), AllChunks(entries[1..], version), version);
    }
  }

  /** Reading the stream of any list of entries, whatever padding follows its terminator, gives
      back the entries, each cut where one length field no longer suffices. */
  lemma ReadStreamBack(entries: seq<Entry>, version: nat, rest: seq<bool>)
    requires forall i :: 0 <= i < |entries| ==> GoodEntry(entries[i])
    requires Ends(rest)
    ensures ReadStream(StreamBits(entries, version) + rest, version) == Segments(ReadEntries(AllChunks(entries, version)))
  {
    StreamIsChunks(entries, version);
    AllChunksFit(entries, version);
    ReadChunksBack(AllChunks(entries, version), version, rest);
  }

  predicate TrailingGood(e: Entry) {
    e.mode == Kanji ==> TrailingBytesGood(e.data)
  }

  lemma {:induction false} TrailingSlice(data: seq<Byte>, k: nat)
    requires k % 2 == 0 && k <= |data|
    ensures TrailingBytesGood(data) <==> TrailingBytesGood(data[..k]) && TrailingBytesGood(data[k..])
  {
    if k == 0 {
      assert data[0..] == data && data[..0] == [];
    } else {
      TrailingSlice(data[2..], k - 2);
      assert data[..k][2..] == data[2..][..k - 2];
      assert data[k..] == data[2..][k - 2..];
    }
  }

  predicate AllTrailingGood(entries: seq<Entry>) {
    forall i :: 0 <= i < |entries| ==> TrailingGood(entries[i])
  }

  lemma JoinAll(a: seq<Entry>, b: seq<Entry>)
    ensures AllTrailingGood(a + b) <==> AllTrailingGood(a) && AllTrailingGood(b)
  {
    hide TrailingGood;
    assert forall i :: 0 <= i < |a| ==> a[i] == (a + b)[i];
    assert forall i :: 0 <= i < |b| ==> b[i] == (a + b)[|a| + i];
  }

  lemma SingleAll(e: Entry)
    ensures AllTrailingGood([e]) <==> TrailingGood(e)
  {
    hide TrailingGood;
    assert [e][0] == e;
  }

  lemma {:induction false} ChunksTrailing(e: Entry, version: nat)
    requires GoodEntry(e)
    ensures TrailingGood(e) <==> AllTrailingGood(Chunks(e, version))
    decreases |e.data|
  {
    hide MaximumWords, TrailingBytesGood, AllTrailingGood;
    var words := MaximumWords(e.mode, version);
    MaximumWordsEven(e.mode, version);
    if e.mode != Structure && words < |e.data| {
      SliceChecks(e, words);
      var head, tail := Entry(e.mode, e.data[..words]), Entry(e.mode, e.data[words..]);
      ChunksTrailing(tail, version);
      JoinAll([head], Chunks(tail, version));
      SingleAll(head);
      if e.mode == Kanji {
        TrailingSlice(e.data, words);
      }
    } else {
      SingleAll(e);
    }
  }

  lemma {:induction false} AllChunksTrailing(entries: seq<Entry>, version: nat)
    requires forall i :: 0 <= i < |entries| ==> GoodEntry(entries[i])
    ensures AllTrailingGood(entries) <==> AllTrailingGood(AllChunks(entries, version))
  {
    if entries != [] {
      hide TrailingGood, Chunks, GoodEntry, AllTrailingGood;
      var first, more := Chunks(entries[0], version), AllChunks(entries[1..], version);
      ChunksTrailing(entries[0], version);
      AllChunksTrailing(entries[1..], version);
      assert entries == [entries[0]] + entries[1..];
      JoinAll(first, more);
      JoinAll([entries[0]], entries[1..]);
      SingleAll(entries[0]);
    }
  }

  /** The round trip is exact if and only if no Kanji code has a trailing byte below 0x40. */
  lemma RoundTripExact(entries: seq<Entry>, version: nat, rest: seq<bool>)
    requires forall i :: 0 <= i < |entries| ==> GoodEntry(entries[i])
    requires Ends(rest)
    ensures ReadStream(StreamBits(entries, version) + rest, version) == Segments(AllChunks(entries, version))
       <==> AllTrailingGood(entries)
  {
    hide AllChunks, Chunks, ReadStream, StreamBits, Ends, Canonical, TrailingBytesGood, GoodEntry;
    ReadStreamBack(entries, version, rest);
    AllChunksTrailing(entries, version);
    var chunks := AllChunks(entries, version);
    forall i | 0 <= i < |chunks| ensures ReadEntries(chunks)[i] == chunks[i] <==> TrailingGood(chunks[i]) {
      CanonicalIff(chunks[i].data);
    }
    if forall i :: 0 <= i < |chunks| ==> TrailingGood(chunks[i]) {
      assert ReadEntries(chunks) == chunks;
    }
  }

  /** A code that the check accepts and that comes back as another one. */
  lemma TrailingByteLost(version: nat, rest: seq<bool>)
    requires Ends(rest)
    ensures var e := Entry(Kanji, [0x82, 0x20]);
      GoodEntry(e) && ReadStream(StreamBits([e], version) + rest, version) == Segments([Entry(Kanji, [0x82, 0x60])])
  {
    hide ReadStream, StreamBits, Ends, MaximumWords;
    var e, back := Entry(Kanji, [0x82, 0x20]), [0x82, 0x60];
    assert e.data[2..] == [] && IsKanjiString(e.data[2..]) && IsKanjiString(e.data);
    ReadStreamBack([e], version, rest);
    AtLeastOneCode(version);
    assert Chunks(e, version) == [e];
    assert AllChunks([e], version) == [e] + AllChunks([], version);
    assert Canonical(e.data) == back + Canonical([]) == back;
    assert ReadEntry(e) == Entry(Kanji, back);
    assert ReadEntries([e]) == [ReadEntry(e)];
  }

  lemma AtLeastOneCode(version: nat)
    ensures 2 <= MaximumWords(Kanji, version)
  {
    Pow2Values();
  }
}
