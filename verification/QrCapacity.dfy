/** How much byte data the version search of qrinput.c can place in one symbol, exactly. */
module QrCapacity {
  import opened Arithmetic
  import opened QrSpec
  import opened QrBits
  import opened QrSegments
  import opened QrInput
  import opened QrVersion

  /** The bits of n bytes in 8-bit mode whose length field has l bits and announces at most m. */
  function ByteModeBits(n: nat, l: nat, m: nat): nat
    requires 1 <= m
  {
    8 * n + Fields(n, m) * (4 + l)
  }

  lemma FieldsStep(n: nat, m: nat)
    requires 1 <= m < n
    ensures Fields(n, m) == 1 + Fields(n - m, m)
  {
    var q, r := (n - 1) / m, (n - 1) % m;
    MulMonotone(m, q + 1, q + 1);
    Quotient(n + m - 1, m, q + 1, r);
  }

  lemma FieldsOne(n: nat, m: nat)
    requires 1 <= n <= m
    ensures Fields(n, m) == 1
  {
    Quotient(n + m - 1, m, 1, n - 1);
  }

  /** The length of an encoded byte entry. */
  lemma {:induction false} ByteEntryLength(e: Entry, version: nat)
    requires GoodEntry(e) && e.mode == Eight
    ensures 0 < MaximumWords(Eight, version)
    ensures |EntryBits(e, version)| == ByteModeBits(|e.data|, LengthIndicator(Eight, version), MaximumWords(Eight, version))
    decreases |e.data|
  {
    hide LengthIndicator, MaximumWords, Fields, ByteBits;
    var words := MaximumWords(e.mode, version);
    MaximumWordsEven(e.mode, version);
    if words < |e.data| {
      EntryBitsCut(e, version);
      FieldsStep(|e.data|, words);
      var head, tail := Entry(e.mode, e.data[..words]), Entry(e.mode, e.data[words..]);
      EntryBitsWhole(head, version);
      ByteEntryLength(tail, version);
      assert ByteModeBits(|e.data|, LengthIndicator(Eight, version), words)
          == 8 * words + 8 * |tail.data| + (1 + Fields(|tail.data|, words)) * (4 + LengthIndicator(Eight, version));
    } else {
      EntryBitsWhole(e, version);
      FieldsOne(|e.data|, words);
    }
  }

  /** The estimate counts one byte too many for each field, so it never exceeds the real length. */
  lemma FieldsLess(n: nat, m: nat)
    requires 1 <= m
    ensures Fields(n, m + 1) <= Fields(n, m)
  {
    var p, q := Fields(n, m), Fields(n, m + 1);
    var r := (n + m - 1) % m;
    assert n + m - 1 == m * p + r;
    assert (m + 1) * (p + 1) == m * p + m + p + 1;
    if p < q {
      assert (m + 1) * q <= n + m;
      MulMonotone(m + 1, p + 1, q);
    }
  }

  /** Bits of one byte entry as estimated and as encoded, by version range. */
  lemma ByteLengths(e: Entry, version: nat)
    requires GoodEntry(e) && e.mode == Eight
    ensures version <= 9 ==> Estimate([e], version) == ByteModeBits(|e.data|, 8, 256) <= |StreamBits([e], version)|
    ensures version <= 9 && |e.data| <= 255 ==> |StreamBits([e], version)| == 8 * |e.data| + 12
    ensures 9 < version && |e.data| <= 65535 ==> Estimate([e], version) == |StreamBits([e], version)| == 8 * |e.data| + 20
    ensures 8 * |e.data| <= Estimate([e], version)
    ensures 65535 < |e.data| ==> 8 * 65535 < |StreamBits([e], version)|
  {
    hide Fields, EntryBits, Pow2;
    assert Pow2(8) == 256 && Pow2(16) == 65536 by { Pow2Values(); }
    var n := |e.data|;
    assert StreamBits([e], version) == EntryBits(e, version) + [];
    assert Estimate([e], version) == EstimateEntry(e, version) + Estimate([], version);
    ByteEntryLength(e, version);
    FieldsLess(n, 255);
    if n <= 65535 {
      FieldsOne(n, 65535);
      FieldsOne(n, 65536);
    }
    if n <= 255 {
      FieldsOne(n, 255);
    }
  }

  /** Settling fails only where the bits at the version reached fit no symbol. */
  lemma {:induction false} SettleOutcome(entries: seq<Entry>, level: Level, version: nat)
    requires Good(entries) && version <= VERSION_MAX
    ensures var r := Settle(entries, level, version);
      && (r.ok <==> |StreamBits(entries, r.version)| <= 8 * DataLength(VERSION_MAX, level))
      && (8 * DataLength(VERSION_MAX, level) < |StreamBits(entries, version)| ==> r.version == version)
    decreases VERSION_MAX - version
  {
    hide StreamBits, DataLength, MinimumVersion, GoodEntry, Bytes;
    var bits := |StreamBits(entries, version)|;
    LeastVersion(bits, level);
    var next := MinimumVersion(Bytes(bits), level);
    if next < 0 {
    } else {
      DataLengthMonotone(next, VERSION_MAX, level);
      if next > version {
        SettleOutcome(entries, level, next);
      }
    }
  }

  /** If every estimate fits some symbol the search succeeds, at a version that has room for one
      of the estimates. */
  lemma {:induction false} SearchSucceeds(entries: seq<Entry>, level: Level, prev: nat, least: nat)
    requires prev <= VERSION_MAX
    requires forall v: nat :: v <= VERSION_MAX ==> least <= Estimate(entries, v) <= 8 * DataLength(VERSION_MAX, level)
    ensures var found := SearchVersion(entries, level, prev); 1 <= found && least <= 8 * DataLength(found, level)
    decreases VERSION_MAX - prev
  {
    hide DataLength, Estimate, MinimumVersion, Bytes;
    var bits := Estimate(entries, prev);
    LeastVersion(bits, level);
    var next := MinimumVersion(Bytes(bits), level);
    if next > prev {
      SearchSucceeds(entries, level, next, least);
    }
  }

  lemma SearchFails(entries: seq<Entry>, level: Level)
    requires 8 * DataLength(VERSION_MAX, level) < Estimate(entries, 0)
    ensures SearchVersion(entries, level, 0) == -1
  {
    hide DataLength, Estimate, MinimumVersion, Bytes;
    LeastVersion(Estimate(entries, 0), level);
    var v := MinimumVersion(Bytes(Estimate(entries, 0)), level);
    if v != -1 {
      DataLengthMonotone(v, VERSION_MAX, level);
    }
  }

  lemma LargestSymbol(level: Level)
    ensures 1276 <= DataLength(VERSION_MAX, level) <= 2956
  {}

  /** Exactly which byte entries convertData accepts. The search starts from the estimate for the
      shortest length fields, many of which are needed for long data, and gives up when that
      estimate fits no symbol: an input that starts at version 9 or below is refused although the
      largest symbol holds it, whenever 8 n + 20 but not ByteModeBits(n, 8, 256) bits fit. */
  lemma ByteEntryAccepted(e: Entry, level: Level, version: nat)
    requires GoodEntry(e) && e.mode == Eight && version <= VERSION_MAX
    ensures Converted([e], level, version).ok
       <==> (if version <= 9 then ByteModeBits(|e.data|, 8, 256) else 8 * |e.data| + 20) <= 8 * DataLength(VERSION_MAX, level)
  {
    hide StreamBits, DataLength, Estimate, Fields, Settle, SearchVersion;
    var n := |e.data|;
    var r := Converted([e], level, version);
    LargestSymbol(level);
    var found := SearchVersion([e], level, 0);
    SettleOutcome([e], level, if found > version then found else version);
    ByteLengths(e, r.version);
    ByteLengths(e, 0);
    ByteLengths(e, version);
    if version <= 9 {
      if ByteModeBits(n, 8, 256) <= 8 * DataLength(VERSION_MAX, level) {
        EstimatesFit(e, level);
        SearchSucceeds([e], level, 0, 8 * n);
        if found <= 9 {
          DataLengthBounds(found, level);
        }
        LongFits(n, level);
      } else {
        SearchFails([e], level);
      }
    }
  }

  lemma LongFits(n: nat, level: Level)
    requires ByteModeBits(n, 8, 256) <= 8 * DataLength(VERSION_MAX, level)
    ensures 8 * n + 20 <= 8 * DataLength(VERSION_MAX, level)
  {
    hide DataLength;
    LargestSymbol(level);
  }

  lemma EstimatesFit(e: Entry, level: Level)
    requires GoodEntry(e) && e.mode == Eight
    requires ByteModeBits(|e.data|, 8, 256) <= 8 * DataLength(VERSION_MAX, level)
    ensures forall v: nat :: v <= VERSION_MAX ==> 8 * |e.data| <= Estimate([e], v) <= 8 * DataLength(VERSION_MAX, level)
  {
    hide DataLength, Estimate, Fields, StreamBits;
    LargestSymbol(level);
    LongFits(|e.data|, level);
    forall v: nat | v <= VERSION_MAX ensures 8 * |e.data| <= Estimate([e], v) <= 8 * DataLength(VERSION_MAX, level) {
      ByteLengths(e, v);
    }
  }

  /** At level L with no version asked for, 2938 bytes is the most that is accepted, while a
      version-40 symbol holds 2953. */
  lemma LongestAccepted(e: Entry)
    requires GoodEntry(e) && e.mode == Eight
    ensures Converted([e], L, 0).ok <==> |e.data| <= 2938
    ensures |StreamBits([e], VERSION_MAX)| <= 8 * DataLength(VERSION_MAX, L) <==> |e.data| <= 2953
  {
    hide StreamBits, Converted, DataLength, Pow2, Estimate;
    ByteEntryAccepted(e, L, 0);
    ByteLengths(e, VERSION_MAX);
    LargestL();
  }

  lemma LargestL()
    ensures DataLength(VERSION_MAX, L) == 2956
  {}

  // ----- numeric, alphanumeric and byte entries -----

  lemma PayloadSubadditive(mode: Mode, a: nat, b: nat)
    requires mode == Num || mode == An || mode == Eight
    ensures EstimatePayload(mode, a + b) <= EstimatePayload(mode, a) + EstimatePayload(mode, b)
  {
    if mode == Num {
      NumSubadditive(a, b);
    }
  }

  lemma NumSubadditive(a: nat, b: nat)
    ensures EstimatePayload(Num, a + b) <= EstimatePayload(Num, a) + EstimatePayload(Num, b)
  {
    var p, q := a / 3, b / 3;
    assert a == 3 * p + a % 3 && b == 3 * q + b % 3;
    assert (a + b) / 3 == p + q + (a % 3 + b % 3) / 3;
  }

  lemma FieldsMonotone(a: nat, b: nat, m: nat)
    requires a <= b && 1 <= m
    ensures Fields(a, m) <= Fields(b, m)
  {
    var p, q := Fields(a, m), Fields(b, m);
    if q < p {
      MulMonotone(m, q + 1, p);
    }
  }

  lemma FieldsAfter(n: nat, words: nat)
    requires 1 <= words < n
    ensures Fields(n, words + 1) <= 1 + Fields(n - words, words + 1)
  {
    if words + 1 < n {
      FieldsStep(n, words + 1);
      FieldsMonotone(n - words - 1, n - words, words + 1);
    } else {
      FieldsOne(n, words + 1);
    }
  }

  predicate CountsBytes(mode: Mode) {
    mode == Num || mode == An || mode == Eight
  }

  lemma EstimateIs(e: Entry, version: nat)
    requires CountsBytes(e.mode)
    ensures 1 <= MaximumWords(e.mode, version)
    ensures EstimateEntry(e, version)
         == EstimatePayload(e.mode, |e.data|) + Fields(|e.data|, MaximumWords(e.mode, version) + 1) * (4 + LengthIndicator(e.mode, version))
  {
    hide Fields, EstimatePayload, Pow2;
    MaximumWordsEven(e.mode, version);
  }

  lemma WholeLength(e: Entry, version: nat)
    requires GoodEntry(e) && CountsBytes(e.mode) && |e.data| <= MaximumWords(e.mode, version)
    ensures |EntryBits(e, version)| == 4 + LengthIndicator(e.mode, version) + EstimatePayload(e.mode, |e.data|)
  {
    hide EstimatePayload, EntryBits, PayloadBits, LengthIndicator, MaximumWords;
    EntryBitsWhole(e, version);
    PayloadLength(e);
  }

  /** The estimate never exceeds the real length, except for Kanji. */
  lemma {:induction false} EstimateBelowReal(e: Entry, version: nat)
    requires GoodEntry(e) && CountsBytes(e.mode)
    ensures EstimateEntry(e, version) <= |EntryBits(e, version)|
    decreases |e.data|
  {
    hide Fields, EstimatePayload, EntryBits, EstimateEntry, MaximumWords, LengthIndicator;
    var l, words := LengthIndicator(e.mode, version), MaximumWords(e.mode, version);
    EstimateIs(e, version);
    if words < |e.data| {
      var head, tail := Entry(e.mode, e.data[..words]), Entry(e.mode, e.data[words..]);
      EntryBitsCut(e, version);
      WholeLength(head, version);
      EstimateIs(tail, version);
      EstimateBelowReal(tail, version);
      PayloadSubadditive(e.mode, words, |tail.data|);
      FieldsAfter(|e.data|, words);
      FieldsCost(Fields(|e.data|, words + 1), Fields(|tail.data|, words + 1), 4 + l);
    } else {
      WholeLength(e, version);
      FieldsOne(|e.data|, words + 1);
    }
  }

  lemma FieldsCost(f: nat, g: nat, c: nat)
    requires f <= 1 + g
    ensures f * c <= c + g * c
  {
    assert (1 + g) * c == c + g * c;
    MulMonotone(c, f, 1 + g);
  }

  /** 7089 digits fill a symbol of version 40 and level L to the last bit, and are refused when no
      version is asked for. */
  lemma DigitsRefused(e: Entry)
    requires GoodEntry(e) && e.mode == Num && |e.data| == 7089
    ensures |StreamBits([e], VERSION_MAX)| == 8 * DataLength(VERSION_MAX, L)
    ensures SearchVersion([e], L, 0) == -1 && Converted([e], L, 0) == Settled(0, false)
  {
    hide StreamBits, DataLength, Estimate, SearchVersion, Settle, MinimumVersion, Bytes, Converted;
    LargestL();
    DigitsLengths(e);
    SearchFails([e], L);
    SettleOutcome([e], L, 0);
    ConvertedUnfold([e], L, 0);
  }

  lemma DigitsLengths(e: Entry)
    requires GoodEntry(e) && e.mode == Num && |e.data| == 7089
    ensures Estimate([e], 0) == 23728 <= |StreamBits([e], 0)| && |StreamBits([e], VERSION_MAX)| == 23648
  {
    hide EntryBits, NumBits, Pow2;
    Pow2Values();
    assert Estimate([e], 0) == EstimateEntry(e, 0) + Estimate([], 0);
    assert StreamBits([e], 0) == EntryBits(e, 0) + [] && StreamBits([e], VERSION_MAX) == EntryBits(e, VERSION_MAX) + [];
    EstimateBelowReal(e, 0);
    EntryBitsWhole(e, VERSION_MAX);
    NumBitsLength(e.data);
  }

  // ----- a version that is raised -----

  /** The estimates can lead above a version that suffices: a structured-append symbol of version 26
      and level L that its 3277 digits fill to the last bit is made at version 27, because the
      length field of version 27, which the search passes through, is two bits longer. */
  lemma FullSymbolRaised(h: Entry, e: Entry)
    requires IsHeader(h) && GoodEntry(h) && GoodEntry(e) && e.mode == Num && |e.data| == 3277
    ensures |StreamBits([h, e], 26)| == 8 * DataLength(26, L)
    ensures Converted([h, e], L, 26) == Settled(27, true)
  {
    hide StreamBits, DataLength, Estimate, SearchVersion, Settle, MinimumVersion, Bytes, Pow2;
    FullSymbolLengths(h, e);
    SizesAroundFull();
    LeastAt(11000, 27);
    LeastAt(10962, 27);
    SearchStep([h, e], 0, 27);
    SearchStep([h, e], 27, 27);
    SettleHere([h, e], 27);
  }

  lemma FullSymbolLengths(h: Entry, e: Entry)
    requires IsHeader(h) && GoodEntry(h) && GoodEntry(e) && e.mode == Num && |e.data| == 3277
    ensures Estimate([h, e], 0) == 11000 && Estimate([h, e], 27) == 10962
    ensures |StreamBits([h, e], 26)| == 10960 && |StreamBits([h, e], 27)| == 10962
  {
    hide EntryBits, Pow2, StreamBits;
    Pow2Values();
    assert [h, e][1..] == [e] && [e][1..] == [];
    assert Estimate([e], 0) == EstimateEntry(e, 0) + Estimate([], 0);
    assert Estimate([e], 27) == EstimateEntry(e, 27) + Estimate([], 27);
    PairLength(h, e, 26);
    PairLength(h, e, 27);
  }

  lemma PairLength(h: Entry, e: Entry, version: nat)
    requires IsHeader(h) && GoodEntry(h) && GoodEntry(e) && e.mode == Num && |e.data| <= MaximumWords(Num, version)
    ensures |StreamBits([h, e], version)| == HEADER_BITS + 4 + LengthIndicator(Num, version) + EstimatePayload(Num, |e.data|)
  {
    hide EntryBits, NumBits, EstimatePayload, MaximumWords;
    assert [h, e][1..] == [e] && [e][1..] == [];
    EntryBitsWhole(h, version);
    EntryBitsWhole(e, version);
    NumBitsLength(e.data);
    assert StreamBits([e], version) == EntryBits(e, version) + StreamBits([], version);
  }

  lemma SizesAroundFull()
    ensures DataLength(26, L) == 1370 && DataLength(27, L) == 1468
  {}

  lemma LeastAt(bits: nat, v: nat)
    requires v == 27 && DataLength(26, L) == 1370 && DataLength(27, L) == 1468 && 10960 < bits <= 11744
    ensures MinimumVersion(Bytes(bits), L) == v
  {
    hide DataLength, FirstFit;
    LeastIsLeast(bits, L, 27);
    var w := MinimumVersion(Bytes(bits), L);
    if w <= 26 {
      DataLengthMonotone(w, 26, L);
    }
  }

  lemma SearchStep(entries: seq<Entry>, prev: nat, next: nat)
    requires prev <= VERSION_MAX && MinimumVersion(Bytes(Estimate(entries, prev)), L) == next
    ensures next > prev ==> SearchVersion(entries, L, prev) == SearchVersion(entries, L, next)
    ensures next <= prev ==> SearchVersion(entries, L, prev) == next
  {
    hide MinimumVersion, Estimate, Bytes;
  }

  lemma SettleHere(entries: seq<Entry>, version: nat)
    requires Good(entries) && version <= VERSION_MAX && MinimumVersion(Bytes(|StreamBits(entries, version)|), L) == version
    ensures Settle(entries, L, version) == Settled(version, true)
  {
    hide MinimumVersion, StreamBits, Bytes;
  }
}
