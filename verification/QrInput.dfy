/** The input list of qrinput.c: size estimates, encoding of entries, the search for a version,
    padding. */
module QrInput {
  import opened QrSpec
  import opened QrBits
  import opened QrSegments

  /** Bits of a structured-append header. */
  const HEADER_BITS := 20

  // ----- estimates -----

  /** Estimated payload bits of `size` bytes. */
  function EstimatePayload(mode: Mode, size: nat): nat {
    match mode
    case Num => size / 3 * 10 + (if size % 3 == 1 then 4 else if size % 3 == 2 then 7 else 0)
    case An => size / 2 * 11 + (if size % 2 == 1 then 6 else 0)
    case Eight => size * 8
    case Kanji => size / 2 * 13
    case Structure => 0
  }

  /** QRinput_estimateBitStreamSizeOfEntry: a field of l bits is taken to announce 1 << l bytes. */
  function EstimateEntry(e: Entry, version: nat): nat {
    if e.mode == Structure then HEADER_BITS
    else
      var l := LengthIndicator(e.mode, if version == 0 then 1 else version);
      EstimatePayload(e.mode, |e.data|) + Fields(|e.data|, Pow2(l)) * (4 + l)
  }

  /** Length fields for `size` bytes when each announces m of them. */
  function Fields(size: nat, m: nat): nat
    requires 1 <= m
  {
    (size + m - 1) / m
  }

  function Estimate(entries: seq<Entry>, version: nat): nat {
    if entries == [] then 0 else EstimateEntry(entries[0], version) + Estimate(entries[1..], version)
  }

  /** Bytes that hold a number of bits. */
  function Bytes(bits: nat): (b: nat)
    ensures 8 * b - 7 <= bits <= 8 * b
  {
    (bits + 7) / 8
  }

  /** The version that the estimates lead to from a guess, or -1. */
  function SearchVersion(entries: seq<Entry>, level: Level, prev: nat): (v: int)
    requires prev <= VERSION_MAX
    ensures v == -1 || 1 <= v <= VERSION_MAX
    decreases VERSION_MAX - prev
  {
    var next := MinimumVersion(Bytes(Estimate(entries, prev)), level);
    if next < 0 then -1 else if next > prev then SearchVersion(entries, level, next) else next
  }

  datatype Settled = Settled(version: nat, ok: bool)

  /** The version that the real bits lead to, and whether they fit it. */
  function Settle(entries: seq<Entry>, level: Level, version: nat): (r: Settled)
    requires Good(entries) && version <= VERSION_MAX
    ensures version <= r.version <= VERSION_MAX
    decreases VERSION_MAX - version
  {
    var next := MinimumVersion(Bytes(|StreamBits(entries, version)|), level);
    if next < 0 then Settled(version, false)
    else if next > version then Settle(entries, level, next)
    else Settled(version, true)
  }

  /** The outcome of convertData for an input that starts at `version`. */
  function Converted(entries: seq<Entry>, level: Level, version: nat): (r: Settled)
    requires Good(entries) && version <= VERSION_MAX
    ensures version <= r.version <= VERSION_MAX
  {
    var found := SearchVersion(entries, level, 0);
    Settle(entries, level, if found > version then found else version)
  }

  predicate Good(entries: seq<Entry>) {
    forall i :: 0 <= i < |entries| ==> GoodEntry(entries[i])
  }

  /** The real payload is as long as its estimate. */
  lemma {:induction false} NumBitsLength(data: seq<Byte>)
    requires forall i :: 0 <= i < |data| ==> IsDigitByte(data[i])
    ensures |NumBits(data)| == EstimatePayload(Num, |data|)
  {
    if |data| >= 3 {
      NumBitsLength(data[3..]);
    }
  }

  lemma {:induction false} AnBitsLength(data: seq<Byte>)
    requires forall i :: 0 <= i < |data| ==> 0 <= AnValue(data[i])
    ensures |AnBits(data)| == EstimatePayload(An, |data|)
  {
    if |data| >= 2 {
      AnBitsLength(data[2..]);
    }
  }

  lemma {:induction false} KanjiBitsLength(data: seq<Byte>)
    requires IsKanjiString(data)
    ensures |KanjiBits(data)| == EstimatePayload(Kanji, |data|)
  {
    hide ToBits, KanjiValue, IsKanjiPair;
    if data != [] {
      KanjiBitsLength(data[2..]);
    }
  }

  lemma PayloadLength(e: Entry)
    requires GoodEntry(e) && e.mode != Structure
    ensures |PayloadBits(e)| == EstimatePayload(e.mode, |e.data|)
  {
    match e.mode
    case Num => NumBitsLength(e.data);
    case An => AnBitsLength(e.data);
    case Eight =>
    case Kanji => KanjiBitsLength(e.data);
  }

  // ----- encoding -----

  lemma NumBitsStep(data: seq<Byte>, i: nat)
    requires forall k :: 0 <= k < |data| ==> IsDigitByte(data[k])
    requires 3 * i + 3 <= |data|
    ensures NumBits(data[3 * i..])
         == ToBits(10, DigitOf(data[3 * i]) * 100 + DigitOf(data[3 * i + 1]) * 10 + DigitOf(data[3 * i + 2])) + NumBits(data[3 * i + 3..])
  {
    hide ToBits;
    assert data[3 * i..][3..] == data[3 * i + 3..];
  }

  lemma NumBitsLast(data: seq<Byte>, i: nat)
    requires forall k :: 0 <= k < |data| ==> IsDigitByte(data[k])
    requires |data| / 3 == i
    ensures NumBits(data[3 * i..]) ==
      if |data| % 3 == 1 then ToBits(4, DigitOf(data[3 * i]))
      else if |data| % 3 == 2 then ToBits(7, DigitOf(data[3 * i]) * 10 + DigitOf(data[3 * i + 1]))
      else []
  {
    hide ToBits;
  }

  method EncodeModeNum(e: Entry, version: nat) returns (b: BitStream)
    requires GoodEntry(e) && e.mode == Num
    ensures fresh(b) && b.Bits() == ChunkBits(e, version)
  {
    hide ToBits, LengthIndicator, NumBits;
    b := new BitStream();
    b.AppendNum(4, ModeId(Num));
    b.AppendNum(LengthIndicator(Num, version), |e.data|);
    var words := |e.data| / 3;
    ghost var all := b.Bits() + NumBits(e.data);
    assert e.data[3 * 0..] == e.data;
    for i := 0 to words
      invariant fresh(b) && b.Bits() + NumBits(e.data[3 * i..]) == all
    {
      var val := DigitOf(e.data[3 * i]) * 100 + DigitOf(e.data[3 * i + 1]) * 10 + DigitOf(e.data[3 * i + 2]);
      NumBitsStep(e.data, i);
      b.AppendNum(10, val);
    }
    NumBitsLast(e.data, words);
    if |e.data| - words * 3 == 1 {
      b.AppendNum(4, DigitOf(e.data[words * 3]));
    } else if |e.data| - words * 3 == 2 {
      b.AppendNum(7, DigitOf(e.data[words * 3]) * 10 + DigitOf(e.data[words * 3 + 1]));
    } else {
      assert b.Bits() + [] == b.Bits();
    }
    assert all == ChunkBits(e, version);
  }

  lemma AnBitsStep(data: seq<Byte>, i: nat)
    requires forall k :: 0 <= k < |data| ==> 0 <= AnValue(data[k])
    requires 2 * i + 2 <= |data|
    ensures AnBits(data[2 * i..]) == ToBits(11, AnValue(data[2 * i]) * 45 + AnValue(data[2 * i + 1])) + AnBits(data[2 * i + 2..])
  {
    hide ToBits, AnValue;
    assert data[2 * i..][2..] == data[2 * i + 2..];
  }

  lemma AnBitsLast(data: seq<Byte>, i: nat)
    requires forall k :: 0 <= k < |data| ==> 0 <= AnValue(data[k])
    requires |data| / 2 == i
    ensures AnBits(data[2 * i..]) == if |data| % 2 == 1 then ToBits(6, AnValue(data[2 * i])) else []
  {
    hide ToBits, AnValue;
  }

  method EncodeModeAn(e: Entry, version: nat) returns (b: BitStream)
    requires GoodEntry(e) && e.mode == An
    ensures fresh(b) && b.Bits() == ChunkBits(e, version)
  {
    hide ToBits, LengthIndicator, AnValue, AnBits;
    b := new BitStream();
    b.AppendNum(4, ModeId(An));
    b.AppendNum(LengthIndicator(An, version), |e.data|);
    var words := |e.data| / 2;
    ghost var all := b.Bits() + AnBits(e.data);
    assert e.data[2 * 0..] == e.data;
    for i := 0 to words
      invariant fresh(b) && b.Bits() + AnBits(e.data[2 * i..]) == all
    {
      var val := AnValue(e.data[2 * i]) * 45 + AnValue(e.data[2 * i + 1]);
      AnBitsStep(e.data, i);
      b.AppendNum(11, val);
    }
    AnBitsLast(e.data, words);
    if |e.data| % 2 == 1 {
      b.AppendNum(6, AnValue(e.data[words * 2]));
    } else {
      assert b.Bits() + [] == b.Bits();
    }
    assert all == ChunkBits(e, version);
  }

  method EncodeMode8(e: Entry, version: nat) returns (b: BitStream)
    requires GoodEntry(e) && e.mode == Eight
    ensures fresh(b) && b.Bits() == ChunkBits(e, version)
  {
    hide ToBits, LengthIndicator;
    b := new BitStream();
    b.AppendNum(4, ModeId(Eight));
    b.AppendNum(LengthIndicator(Eight, version), |e.data|);
    b.AppendBytes(e.data);
  }

  lemma KanjiBitsStep(data: seq<Byte>, i: nat)
    requires i < |data| && IsKanjiString(data[i..])
    ensures i + 2 <= |data| && IsKanjiPair(data[i], data[i + 1]) && IsKanjiString(data[i + 2..])
    ensures KanjiBits(data[i..]) == ToBits(13, KanjiValue(data[i], data[i + 1])) + KanjiBits(data[i + 2..])
  {
    hide ToBits, IsKanjiPair, KanjiValue;
    assert data[i..][2..] == data[i + 2..];
  }

  lemma NoKanjiBits(data: seq<Byte>)
    requires |data| == 0
    ensures IsKanjiString(data) && KanjiBits(data) == []
  {}

  method EncodeModeKanji(e: Entry, version: nat) returns (b: BitStream)
    requires GoodEntry(e) && e.mode == Kanji
    ensures fresh(b) && b.Bits() == ChunkBits(e, version)
  {
    hide ToBits, LengthIndicator, IsKanjiPair, KanjiBits, KanjiValue, IsKanjiString;
    b := new BitStream();
    b.AppendNum(4, ModeId(Kanji));
    b.AppendNum(LengthIndicator(Kanji, version), |e.data| / 2);
    ghost var all := b.Bits() + KanjiBits(e.data);
    assert e.data[0..] == e.data;
    KanjiEven(e.data);
    var i := 0;
    while i < |e.data|
      invariant 0 <= i <= |e.data| && i % 2 == 0
      invariant IsKanjiString(e.data[i..])
      invariant fresh(b) && b.Bits() + KanjiBits(e.data[i..]) == all
    {
      KanjiBitsStep(e.data, i);
      b.AppendNum(13, KanjiValue(e.data[i], e.data[i + 1]));
      i := i + 2;
    }
    NoKanjiBits(e.data[i..]);
    assert b.Bits() + [] == b.Bits();
    assert all == ChunkBits(e, version);
  }

  method EncodeModeStructure(e: Entry, version: nat) returns (b: BitStream)
    requires GoodEntry(e) && e.mode == Structure
    ensures fresh(b) && b.Bits() == ChunkBits(e, version)
  {
    hide ToBits;
    b := new BitStream();
    b.AppendNum(4, ModeId(Structure));
    b.AppendNum(4, e.data[1] - 1);
    b.AppendNum(4, e.data[0] - 1);
    b.AppendNum(8, e.data[2]);
  }

  lemma EntryBitsWhole(e: Entry, version: nat)
    requires GoodEntry(e) && (e.mode == Structure || |e.data| <= MaximumWords(e.mode, version))
    ensures EntryBits(e, version) == ChunkBits(e, version)
  {
    hide ChunkBits, MaximumWords;
    assert ChunksBits([e], version) == ChunkBits(e, version) + [];
  }

  lemma EntryBitsCut(e: Entry, version: nat)
    requires GoodEntry(e) && e.mode != Structure && MaximumWords(e.mode, version) < |e.data|
    ensures var words := MaximumWords(e.mode, version); 
      0 < words && GoodEntry(Entry(e.mode, e.data[..words])) && GoodEntry(Entry(e.mode, e.data[words..]))
      && EntryBits(e, version) == EntryBits(Entry(e.mode, e.data[..words]), version) + EntryBits(Entry(e.mode, e.data[words..]), version)
  {
    hide ChunkBits, MaximumWords, GoodEntry;
    var words := MaximumWords(e.mode, version);
    MaximumWordsEven(e.mode, version);
    SliceChecks(e, words);
    EntryBitsWhole(Entry(e.mode, e.data[..words]), version);
  }

  /** QRinput_encodeBitStream: an entry too long for its length field is cut, recursively. */
  method EncodeBitStream(e: Entry, version: nat) returns (b: BitStream)
    requires GoodEntry(e)
    ensures fresh(b) && b.Bits() == EntryBits(e, version)
    decreases |e.data|
  {
    hide ChunkBits, MaximumWords, EntryBits, GoodEntry, LengthIndicator;
    var words := MaximumWords(e.mode, version);
    MaximumWordsEven(e.mode, version);
    if words != 0 && |e.data| > words {
      WordsOfStructure(e.mode, version);
      EntryBitsCut(e, version);
      var st1 := EncodeBitStream(Entry(e.mode, e.data[..words]), version);
      var st2 := EncodeBitStream(Entry(e.mode, e.data[words..]), version);
      b := new BitStream();
      b.Append(st1);
      b.Append(st2);
    } else {
      EntryBitsWhole(e, version);
      match e.mode
      case Num => b := EncodeModeNum(e, version);
      case An => b := EncodeModeAn(e, version);
      case Eight => b := EncodeMode8(e, version);
      case Kanji => b := EncodeModeKanji(e, version);
      case Structure => b := EncodeModeStructure(e, version);
    }
  }

  lemma WordsOfStructure(mode: Mode, version: nat)
    ensures MaximumWords(mode, version) == 0 <==> mode == Structure
  {
    Pow2Values();
  }

  // ----- padding -----

  /** Pad bytes, alternating. */
  function PadBytes(n: nat): (r: seq<Byte>)
    ensures |r| == n
  {
    seq(n, i => if i % 2 == 1 then 0x11 else 0xec)
  }

  /** What follows `bits` bits in a symbol of `words` bytes. */
  function Padding(bits: nat, words: nat): (r: seq<bool>)
    requires bits <= 8 * words
    ensures bits + |r| == 8 * words
  {
    if 8 * words - bits <= 4 then ToBits(8 * words - bits, 0)
    else ToBits(Aligned(bits) - bits, 0) + ByteBits(PadBytes(words - Aligned(bits) / 8))
  }

  /** A stream filled up to a symbol of `words` bytes; one that is too long is left alone. */
  function Padded(stream: seq<bool>, words: int): seq<bool> {
    if |stream| <= 8 * words then stream + Padding(|stream|, words) else stream
  }

  /** The byte boundary after a terminator of four bits. */
  function Aligned(bits: nat): (n: nat)
    ensures bits + 4 <= n < bits + 12 && n % 8 == 0
  {
    (bits + 11) / 8 * 8
  }

  /** Eight bits of padding that are the pad byte number k, 11101100 or 00010001. */
  predicate IsPad(group: seq<bool>, k: nat) {
    group == if k % 2 == 0 then [true, true, true, false, true, true, false, false]
             else [false, false, false, true, false, false, false, true]
  }

  /** The standard's terminator and pad bytes: zeros, four of them where there is room, up to a
      byte boundary, and then 11101100 and 00010001 in turn up to the capacity. */
  lemma PaddingShape(bits: nat, words: nat)
    requires bits <= 8 * words
    ensures var r, zeros := Padding(bits, words), (bits + 11) / 8 * 8 - bits;
      && |r| == 8 * words - bits
      && (forall i :: 0 <= i < zeros && i < |r| ==> !r[i])
      && (|r| <= 4 ==> |r| <= zeros) && 4 <= zeros < 12 && (bits + zeros) % 8 == 0
      && (4 < |r| ==> zeros <= |r| && (|r| - zeros) % 8 == 0)
      && forall k: nat :: zeros + 8 * k + 8 <= |r| ==> IsPad(r[zeros + 8 * k..zeros + 8 * k + 8], k)
  {
    hide ToBits, ByteBits, PadBytes, IsPad, Padding;
    var used := (bits + 11) / 8;
    var zeros := 8 * used - bits;
    if 8 * words <= bits + 4 {
      PaddingShort(bits, words);
      NoOnes(8 * words - bits);
    } else {
      PaddingLong(bits, words);
      NoOnes(zeros);
      var bytes := PadBytes(words - used);
      TakeDrop(ToBits(zeros, 0), ByteBits(bytes));
      PadGroups(Padding(bits, words), zeros, bytes);
    }
  }

  lemma NoOnes(n: nat)
    ensures forall i :: 0 <= i < n ==> !ToBits(n, 0)[i]
  {
    ZeroBits(n);
  }

  lemma PadGroups(r: seq<bool>, zeros: nat, bytes: seq<Byte>)
    requires zeros <= |r| && r[zeros..] == ByteBits(bytes) && bytes == PadBytes(|bytes|)
    ensures forall k: nat :: zeros + 8 * k + 8 <= |r| ==> IsPad(r[zeros + 8 * k..zeros + 8 * k + 8], k)
  {
    hide ToBits, ByteBits, PadBytes, IsPad;
    forall k: nat | zeros + 8 * k + 8 <= |r| ensures IsPad(r[zeros + 8 * k..zeros + 8 * k + 8], k) {
      assert r[zeros + 8 * k..zeros + 8 * k + 8] == r[zeros..][8 * k..8 * k + 8];
      ByteAt(bytes, k);
      PadByteBits(|bytes|, k);
    }
  }

  lemma ByteAt(bytes: seq<Byte>, k: nat)
    requires k < |bytes|
    ensures ByteBits(bytes)[8 * k..8 * k + 8] == ToBits(8, bytes[k])
  {
    hide ToBits, ByteBits;
    forall j | 0 <= j < 8 ensures ByteBits(bytes)[8 * k..8 * k + 8][j] == ToBits(8, bytes[k])[j] {
      ByteBitsAt(bytes, k, j);
    }
  }

  lemma PadBits()
    ensures ToBits(8, 0xec) == [true, true, true, false, true, true, false, false]
    ensures ToBits(8, 0x11) == [false, false, false, true, false, false, false, true]
  {}

  lemma PadByteBits(n: nat, k: nat)
    requires k < n
    ensures IsPad(ToBits(8, PadBytes(n)[k]), k)
  {
    hide ToBits;
    PadBits();
  }

  lemma PadNumber(group: seq<bool>, k: nat)
    requires IsPad(group, k)
    ensures FromBits(group) == if k % 2 == 0 then 236 else 17
  {
    hide ToBits, FromBits, Pow2;
    PadBits();
    Pow2Values();
    FromToBits(8, 0xec);
    FromToBits(8, 0x11);
  }

  lemma MiddleOfSum(a: seq<bool>, b: seq<bool>, i: nat, n: nat)
    requires i + n <= |b|
    ensures (a + b)[|a| + i..|a| + i + n] == b[i..i + n]
  {}

  /** The bytes behind the data and its terminator. */
  lemma PackedPadding(stream: seq<bool>, words: nat, i: nat)
    requires |stream| <= 8 * words && (|stream| + 11) / 8 <= i < words
    ensures |Pack(Padded(stream, words))| == words
    ensures Pack(Padded(stream, words))[i] == if (i - (|stream| + 11) / 8) % 2 == 0 then 236 else 17
  {
    hide Pack, Padding, FromBits, IsPad;
    var s, r := Padded(stream, words), Padding(|stream|, words);
    PaddingShape(|stream|, words);
    var k := i - (|stream| + 11) / 8;
    var zeros := (|stream| + 11) / 8 * 8 - |stream|;
    PackAt(s, i);
    MiddleOfSum(stream, r, zeros + 8 * k, 8);
    PadNumber(r[zeros + 8 * k..zeros + 8 * k + 8], k);
  }

  lemma PaddingEnds(bits: nat, words: nat)
    requires bits <= 8 * words
    ensures Ends(Padding(bits, words))
  {
    hide Padding, FromBits;
    var r := Padding(bits, words);
    PaddingShape(bits, words);
    if 4 <= |r| {
      assert r[..4] == [false, false, false, false];
      FourZeros();
    }
  }

  lemma FourZeros()
    ensures FromBits([false, false, false, false]) == 0
  {
    ZeroBits(4);
    assert ToBits(4, 0) == [false, false, false, false];
    FromToBits(4, 0);
  }

  lemma PaddingShort(bits: nat, words: nat)
    requires bits <= 8 * words <= bits + 4
    ensures Padding(bits, words) == ToBits(8 * words - bits, 0)
  {}

  lemma PaddingLong(bits: nat, words: nat)
    requires bits + 4 < 8 * words
    ensures var used := (bits + 11) / 8;
      bits <= 8 * used <= 8 * words && Padding(bits, words) == ToBits(8 * used - bits, 0) + ByteBits(PadBytes(words - used))
  {}

  /** QRinput_appendPaddingBit; refused when the symbol is too small. */
  method AppendPaddingBit(stream: BitStream, version: nat, level: Level) returns (ok: bool)
    requires version <= VERSION_MAX
    modifies stream
    ensures ok <==> old(|stream.Bits()|) <= 8 * DataLength(version, level)
    ensures ok ==> stream.Bits() == old(stream.Bits()) + Padding(|old(stream.Bits())|, DataLength(version, level))
    ensures !ok ==> stream.Bits() == old(stream.Bits())
  {
    hide DataLength, ToBits, ByteBits, Padding;
    var bits := stream.data.Length;
    var maxwords := DataLength(version, level);
    var maxbits := maxwords * 8;
    assert |stream.Bits()| == bits;
    if maxbits < bits {
      return false;
    }
    if maxbits == bits {
      PaddingShort(bits, maxwords);
      assert stream.Bits() + ToBits(0, 0) == stream.Bits();
      return true;
    }
    if maxbits - bits <= 4 {
      PaddingShort(bits, maxwords);
      stream.AppendNum(maxbits - bits, 0);
      return true;
    }
    PaddingLong(bits, maxwords);
    var words := (bits + 4 + 7) / 8;
    var padding := new BitStream();
    padding.AppendNum(words * 8 - bits, 0);
    ghost var zeros := ToBits(words * 8 - bits, 0);
    assert padding.Bits() == zeros;
    var padlen := maxwords - words;
    if padlen > 0 {
      var padbuf := new Byte[padlen];
      for i := 0 to padlen
        invariant padding.Bits() == zeros && stream.Bits() == old(stream.Bits())
        invariant forall k :: 0 <= k < i ==> padbuf[k] == PadBytes(padlen)[k]
      {
        padbuf[i] := if i % 2 == 1 then 0x11 else 0xec;
      }
      assert padbuf[..] == PadBytes(padlen);
      padding.AppendBytes(padbuf[..]);
      assert padding.Bits() == zeros + ByteBits(PadBytes(padlen));
    } else {
      NoPadBytes();
      assert zeros + [] == zeros;
      assert padding.Bits() == zeros + ByteBits(PadBytes(padlen));
    }
    assert padding.Bits() == Padding(bits, maxwords);
    stream.Append(padding);
    return true;
  }

  lemma NoPadBytes()
    ensures ByteBits(PadBytes(0)) == []
  {}

  // ----- the input object -----

  lemma StreamBitsEnds(entries: seq<Entry>, version: nat)
    requires Good(entries)
    ensures entries[0..] == entries && entries[|entries|..] == [] && StreamBits(entries[|entries|..], version) == []
  {}

  lemma StreamBitsStep(entries: seq<Entry>, version: nat, i: nat)
    requires Good(entries) && i < |entries|
    ensures StreamBits(entries[i..], version) == EntryBits(entries[i], version) + StreamBits(entries[i + 1..], version)
  {
    hide EntryBits, GoodEntry;
    assert entries[i..][1..] == entries[i + 1..];
  }

  class QRinput {
    var version: nat
    var level: Level
    var entries: seq<Entry>
    var streams: seq<BitStream>

    /** QRinput_new2, for arguments that it accepts. */
    constructor (v: nat, l: Level)
      requires v <= VERSION_MAX
      ensures version == v && level == l && entries == [] && streams == []
    {
      version, level, entries, streams := v, l, [], [];
    }

    predicate Valid()
      reads this
    {
      version <= VERSION_MAX && Good(entries)
    }

    /** Each entry has been given its bits at the present version. */
    ghost predicate Encoded()
      reads this, streams, set s <- streams :: s.data
      requires Valid()
    {
      |streams| == |entries| && forall i :: 0 <= i < |entries| ==> streams[i].Bits() == EntryBits(entries[i], version)
    }

    /** QRinput_append of an entry that QRinput_check accepts. */
    method Append(e: Entry)
      requires Valid() && GoodEntry(e)
      modifies this`entries
      ensures Valid() && entries == old(entries) + [e]
    {
      entries := entries + [e];
    }

    /** QRinput_estimateBitStreamSize. */
    method EstimateBitStreamSize(v: nat) returns (bits: nat)
      ensures bits == Estimate(entries, v)
    {
      bits := 0;
      var list := entries;
      while list != []
        invariant bits + Estimate(list, v) == Estimate(entries, v)
        decreases |list|
      {
        bits := bits + EstimateEntry(list[0], v);
        list := list[1..];
      }
    }

    /** QRinput_estimateVersion: the estimate at some version, not below the result, fits the
        result and no smaller symbol; or the estimate at some version fits no symbol. */
    method EstimateVersion() returns (v: int)
      ensures v == SearchVersion(entries, level, 0)
      ensures v == -1 || 1 <= v <= VERSION_MAX
      ensures v != -1 ==> exists prev :: v <= prev <= VERSION_MAX && v == MinimumVersion(Bytes(Estimate(entries, prev)), level)
      ensures v == -1 ==> exists prev :: 0 <= prev <= VERSION_MAX && MinimumVersion(Bytes(Estimate(entries, prev)), level) == -1
    {
      hide MinimumVersion, DataLength, Estimate, Bytes;
      var ver: nat, prev: nat, again := 0, 0, true;
      while again
        invariant again ==> (ver == 0 && prev == 0) || prev < ver
        invariant ver <= VERSION_MAX && prev <= VERSION_MAX
        invariant SearchVersion(entries, level, 0) == if again then SearchVersion(entries, level, ver) else ver
        invariant !again ==> 1 <= ver <= prev && ver == MinimumVersion(Bytes(Estimate(entries, prev)), level)
        decreases again, VERSION_MAX - ver
      {
        prev := ver;
        var bits := EstimateBitStreamSize(prev);
        var next := MinimumVersion(Bytes(bits), level);
        LeastVersion(bits, level);
        if next < 0 {
          return -1;
        }
        ver := next;
        again := ver > prev;
      }
      return ver;
    }

    /** QRinput_createBitStream. */
    method CreateBitStream() returns (total: nat)
      requires Valid()
      modifies this`streams
      ensures Valid() && Encoded() && total == |StreamBits(entries, version)|
      ensures forall i :: 0 <= i < |streams| ==> fresh(streams[i])
    {
      hide EntryBits, GoodEntry;
      streams := [];
      total := 0;
      assert entries[0..] == entries;
      for i := 0 to |entries|
        invariant |streams| == i && forall k :: 0 <= k < i ==> fresh(streams[k])
        invariant forall k :: 0 <= k < i ==> streams[k].Bits() == EntryBits(entries[k], version)
        invariant total + |StreamBits(entries[i..], version)| == |StreamBits(entries, version)|
      {
        var b := EncodeBitStream(entries[i], version);
        assert entries[i..][1..] == entries[i + 1..];
        streams := streams + [b];
        total := total + b.data.Length;
      }
    }

    /** QRinput_convertData: raises the version until the real bits fit, and fails exactly when at
        the version it reached they fit no symbol. */
    method ConvertData() returns (ok: bool)
      requires Valid()
      modifies this`version, this`streams
      ensures Valid() && Encoded() && old(version) <= version
      ensures Settled(version, ok) == Converted(entries, level, old(version))
      ensures forall i :: 0 <= i < |streams| ==> fresh(streams[i])
      ensures ok ==> 1 <= version && |StreamBits(entries, version)| <= 8 * DataLength(version, level)
      ensures !ok ==> forall w :: 1 <= w <= VERSION_MAX ==> 8 * DataLength(w, level) < |StreamBits(entries, version)|
    {
      hide MinimumVersion, DataLength, StreamBits, EntryBits, Bytes;
      var ver := EstimateVersion();
      if ver > version {
        version := ver;
      }
      while true
        invariant Valid() && old(version) <= version
        invariant Settle(entries, level, version) == Converted(entries, level, old(version))
        decreases VERSION_MAX - version
      {
        var bits := CreateBitStream();
        ver := MinimumVersion(Bytes(bits), level);
        LeastVersion(bits, level);
        if ver < 0 {
          return false;
        } else if ver > version {
          version := ver;
        } else {
          DataLengthMonotone(ver, version, level);
          return true;
        }
      }
    }

    /** QRinput_mergeBitStream. */
    method MergeBitStream() returns (ok: bool, b: BitStream)
      requires Valid()
      modifies this`version, this`streams
      ensures Valid() && old(version) <= version && fresh(b)
      ensures Settled(version, ok) == Converted(entries, level, old(version))
      ensures ok ==> 1 <= version && |StreamBits(entries, version)| <= 8 * DataLength(version, level)
      ensures ok ==> b.Bits() == StreamBits(entries, version)
      ensures !ok ==> forall w :: 1 <= w <= VERSION_MAX ==> 8 * DataLength(w, level) < |StreamBits(entries, version)|
    {
      hide EntryBits, GoodEntry, DataLength, StreamBits, Converted;
      ok := ConvertData();
      b := new BitStream();
      if !ok {
        return;
      }
      StreamBitsEnds(entries, version);
      ghost var v := version;
      for i := 0 to |entries|
        invariant version == v && fresh(b) && Encoded() && b !in streams
        invariant b.Bits() + StreamBits(entries[i..], version) == StreamBits(entries, version)
      {
        StreamBitsStep(entries, version, i);
        b.Append(streams[i]);
      }
      assert b.Bits() + [] == b.Bits();
    }

    /** QRinput_getByteStream: success fills the symbol of the final version exactly, and a reader
        of those bytes finds the entries; failure means that no symbol holds the data. */
    method GetByteStream() returns (ok: bool, bytes: array<nat>)
      requires Valid()
      modifies this`version, this`streams
      ensures Valid() && old(version) <= version
      ensures Settled(version, ok) == Converted(entries, level, old(version))
      ensures ok ==> 1 <= version && bytes.Length == DataLength(version, level)
      ensures ok ==> forall i :: 0 <= i < bytes.Length ==> bytes[i] < 256
      ensures ok ==> bytes[..] == Pack(Padded(StreamBits(entries, version), DataLength(version, level)))
      ensures ok ==>
        var used := (|StreamBits(entries, version)| + 11) / 8;
        forall i :: used <= i < bytes.Length ==> bytes[i] == if (i - used) % 2 == 0 then 236 else 17
      ensures ok ==> ReadStream(ByteBits(bytes[..]), version) == Segments(ReadEntries(AllChunks(entries, version)))
      ensures !ok ==> forall w :: 1 <= w <= VERSION_MAX ==> 8 * DataLength(w, level) < |StreamBits(entries, version)|
    {
      hide StreamBits, DataLength, ReadStream, ByteBits, Pack, Padding, Converted, ReadEntries, AllChunks, GoodEntry;
      bytes := new nat[0];
      var b;
      ok, b := MergeBitStream();
      if !ok {
        return;
      }
      ok := AppendPaddingBit(b, version, level);
      PackedReads(entries, version, level);
      RoomForData(version, level);
      var packed := b.ToByte();
      bytes := packed;
      ghost var stream := StreamBits(entries, version);
      forall i | (|stream| + 11) / 8 <= i < bytes.Length ensures bytes[i] == if (i - (|stream| + 11) / 8) % 2 == 0 then 236 else 17 {
        PackedPadding(stream, DataLength(version, level), i);
        assert bytes[i] == bytes[..][i];
      }
    }
  }

  lemma RoomForData(version: nat, level: Level)
    requires 1 <= version <= VERSION_MAX
    ensures 1 <= DataLength(version, level)
  {
    hide DataLength;
    DataLengthBounds(version, level);
  }

  /** What the packed stream of a symbol is, and what a reader finds in it. */
  lemma PackedReads(entries: seq<Entry>, version: nat, level: Level)
    requires Good(entries) && version <= VERSION_MAX && |StreamBits(entries, version)| <= 8 * DataLength(version, level)
    ensures var s := Padded(StreamBits(entries, version), DataLength(version, level));
      && |s| == 8 * DataLength(version, level) && |Pack(s)| == DataLength(version, level)
      && (forall i :: 0 <= i < |Pack(s)| ==> Pack(s)[i] < 256)
      && ReadStream(ByteBits(Pack(s)), version) == Segments(ReadEntries(AllChunks(entries, version)))
  {
    hide StreamBits, DataLength, ReadStream, ByteBits, Pack, Padding, ReadEntries, AllChunks, GoodEntry;
    var stream, words := StreamBits(entries, version), DataLength(version, level);
    PaddingEnds(|stream|, words);
    ReadStreamBack(entries, version, Padding(|stream|, words));
    UnpackPacked(stream + Padding(|stream|, words));
  }

  lemma LeastVersion(bits: nat, level: Level)
    ensures var v := MinimumVersion(Bytes(bits), level);
      && (v != -1 ==> 1 <= v <= VERSION_MAX && bits <= 8 * DataLength(v, level))
      && (v == -1 ==> forall w :: 1 <= w <= VERSION_MAX ==> 8 * DataLength(w, level) < bits)
  {
    hide DataLength, FirstFit;
  }
}
