/** Where the version search of qrinput.c ends, in closed form. */
module QrVersion {
  // Estimates and real lengths change only between the three ranges of versions that share their
  // length fields. So the search is settled by six numbers: the least versions for the estimates
  // at versions 1, 10 and 27, and for the real lengths there.
  import opened QrSpec
  import opened QrBits
  import opened QrSegments
  import opened QrInput

  /** The version that stands for all versions with the same length fields. */
  function Rep(version: nat): nat {
    if version <= 9 then 1 else if version <= 26 then 10 else 27
  }

  lemma SameFields(mode: Mode, version: nat)
    ensures LengthIndicator(mode, version) == LengthIndicator(mode, Rep(version))
    ensures version == 0 ==> LengthIndicator(mode, version) == LengthIndicator(mode, 1)
  {}

  lemma {:induction false} EstimateByRange(entries: seq<Entry>, version: nat)
    ensures Estimate(entries, version) == Estimate(entries, Rep(version))
  {
    hide LengthIndicator, EstimatePayload, Fields;
    if entries != [] {
      SameFields(entries[0].mode, version);
      EstimateByRange(entries[1..], version);
    }
  }

  lemma {:induction false} ChunksBitsByRange(chunks: seq<Entry>, version: nat)
    requires Good(chunks)
    ensures ChunksBits(chunks, version) == ChunksBits(chunks, Rep(version))
  {
    hide LengthIndicator, GoodEntry, PayloadBits, ToBits;
    if chunks != [] {
      SameFields(chunks[0].mode, version);
      ChunksBitsByRange(chunks[1..], version);
    }
  }

  lemma {:induction false} ChunksByRange(e: Entry, version: nat)
    requires GoodEntry(e)
    ensures Chunks(e, version) == Chunks(e, Rep(version))
    decreases |e.data|
  {
    hide LengthIndicator;
    SameFields(e.mode, version);
    var words := MaximumWords(e.mode, version);
    MaximumWordsEven(e.mode, version);
    if e.mode != Structure && words < |e.data| {
      SliceChecks(e, words);
      ChunksByRange(Entry(e.mode, e.data[words..]), version);
    }
  }

  lemma {:induction false} StreamByRange(entries: seq<Entry>, version: nat)
    requires Good(entries)
    ensures StreamBits(entries, version) == StreamBits(entries, Rep(version))
  {
    hide GoodEntry, Chunks, ChunksBits;
    if entries != [] {
      ChunksByRange(entries[0], version);
      ChunksBitsByRange(Chunks(entries[0], version), version);
      StreamByRange(entries[1..], version);
    }
  }

  /** The least version with room for some bits, or -1. */
  function Least(bits: nat, level: Level): (v: int)
    ensures v == -1 || 1 <= v <= VERSION_MAX
  {
    MinimumVersion(Bytes(bits), level)
  }

  /** The least versions for three numbers of bits, one for each range of versions. */
  datatype Marks = Marks(low: int, middle: int, high: int)

  predicate IsMarks(m: Marks) {
    -1 <= m.low <= VERSION_MAX && m.low != 0 && -1 <= m.middle <= VERSION_MAX && m.middle != 0
    && -1 <= m.high <= VERSION_MAX && m.high != 0
  }

  function ForEstimate(entries: seq<Entry>, level: Level, version: nat): (v: int)
    ensures v == -1 || 1 <= v <= VERSION_MAX
  {
    Least(Estimate(entries, version), level)
  }

  function ForBits(entries: seq<Entry>, level: Level, version: nat): (v: int)
    requires Good(entries)
    ensures v == -1 || 1 <= v <= VERSION_MAX
  {
    Least(|StreamBits(entries, version)|, level)
  }

  /** The marks of the three estimates. */
  function Estimates(entries: seq<Entry>, level: Level): (m: Marks)
    ensures IsMarks(m)
  {
    Marks(ForEstimate(entries, level, 1), ForEstimate(entries, level, 10), ForEstimate(entries, level, 27))
  }

  /** The marks of the three real lengths. */
  function Lengths(entries: seq<Entry>, level: Level): (n: Marks)
    requires Good(entries)
    ensures IsMarks(n)
  {
    Marks(ForBits(entries, level, 1), ForBits(entries, level, 10), ForBits(entries, level, 27))
  }

  function Mark(m: Marks, version: nat): int {
    if version <= 9 then m.low else if version <= 26 then m.middle else m.high
  }

  // ----- the search by estimates -----

  function Searched(m: Marks): int {
    if m.low <= 9 then m.low else if m.low <= 26 && m.middle <= 26 then m.middle else m.high
  }

  lemma SearchOnce(entries: seq<Entry>, level: Level, prev: nat)
    requires prev <= VERSION_MAX
    ensures var v := Mark(Estimates(entries, level), prev);
      SearchVersion(entries, level, prev) == if v > prev then SearchVersion(entries, level, v) else v
  {
    hide MinimumVersion, Estimate, Bytes;
    EstimateByRange(entries, prev);
  }

  /** QRinput_estimateVersion in closed form, for every list of entries. */
  lemma SearchClosed(entries: seq<Entry>, level: Level)
    ensures SearchVersion(entries, level, 0) == Searched(Estimates(entries, level))
  {
    hide SearchVersion, Estimates, MinimumVersion, Least, ForEstimate;
    var m := Estimates(entries, level);
    SearchOnce(entries, level, 0);
    if m.low > 0 {
      SearchOnce(entries, level, m.low);
    }
    if m.middle > 0 {
      SearchOnce(entries, level, m.middle);
    }
    if m.high > 0 {
      SearchOnce(entries, level, m.high);
    }
  }

  // ----- the search by real lengths -----

  function Larger(a: int, b: nat): (c: nat)
    ensures b <= c && (a <= VERSION_MAX && b <= VERSION_MAX ==> c <= VERSION_MAX)
  {
    if a > b then a else b
  }

  /** Where the loop of convertData ends that starts at a version. */
  function Ended(version: nat, n: Marks): Settled
    requires IsMarks(n)
  {
    if version <= 9 && n.low == -1 then Settled(version, false)
    else if version <= 9 && n.low <= 9 then Settled(Larger(version, n.low), true)
    else EndedAbove(if version <= 9 then n.low else version, n)
  }

  /** The same for a start at version 10 or above. */
  function EndedAbove(version: nat, n: Marks): Settled
    requires IsMarks(n)
  {
    if version <= 26 && n.middle == -1 then Settled(version, false)
    else if version <= 26 && n.middle <= 26 then Settled(Larger(version, n.middle), true)
    else
      var w := if version <= 26 then n.middle else version;
      if n.high == -1 then Settled(w, false) else Settled(Larger(w, n.high), true)
  }

  lemma SettleOnce(entries: seq<Entry>, level: Level, version: nat)
    requires Good(entries) && version <= VERSION_MAX
    ensures var v := Mark(Lengths(entries, level), version);
      Settle(entries, level, version) ==
        if v == -1 then Settled(version, false) else if v > version then Settle(entries, level, v) else Settled(version, true)
  {
    hide MinimumVersion, StreamBits, Bytes, GoodEntry;
    StreamByRange(entries, version);
  }

  /** The closed form obeys the loop. */
  lemma EndedOnce(version: nat, n: Marks)
    requires IsMarks(n)
    ensures var v := Mark(n, version);
      Ended(version, n) == if v == -1 then Settled(version, false) else if v > version then Ended(v, n) else Settled(version, true)
  {}

  lemma {:induction false} SettleClosed(entries: seq<Entry>, level: Level, version: nat)
    requires Good(entries) && version <= VERSION_MAX
    ensures Settle(entries, level, version) == Ended(version, Lengths(entries, level))
    decreases VERSION_MAX - version
  {
    hide Settle, Lengths, GoodEntry, Ended, MinimumVersion, Least;
    var n := Lengths(entries, level);
    SettleOnce(entries, level, version);
    EndedOnce(version, n);
    var v := Mark(n, version);
    if v > version {
      SettleClosed(entries, level, v);
    }
  }

  // ----- convertData -----

  lemma ConvertedUnfold(entries: seq<Entry>, level: Level, version: nat)
    requires Good(entries) && version <= VERSION_MAX
    ensures Converted(entries, level, version) == Settle(entries, level, Larger(SearchVersion(entries, level, 0), version))
  {
    hide Settle, SearchVersion, GoodEntry;
  }

  /** The outcome of convertData for every list of entries, level and first version, from the three
      estimates and the three real lengths. */
  lemma ConvertedClosed(entries: seq<Entry>, level: Level, version: nat)
    requires Good(entries) && version <= VERSION_MAX
    ensures Converted(entries, level, version) == Ended(Larger(Searched(Estimates(entries, level)), version), Lengths(entries, level))
  {
    hide Settle, SearchVersion, Estimates, Lengths, GoodEntry, Ended, MinimumVersion, Least, Converted;
    ConvertedUnfold(entries, level, version);
    SearchClosed(entries, level);
    SettleClosed(entries, level, Larger(SearchVersion(entries, level, 0), version));
  }

  /** The bits that a version gives fit that version. */
  predicate Fits(entries: seq<Entry>, level: Level, version: nat)
    requires Good(entries)
  {
    |StreamBits(entries, version)| <= 8 * DataLength(version, level)
  }

  lemma FitsByLeast(entries: seq<Entry>, level: Level, version: nat)
    requires Good(entries) && 1 <= version <= VERSION_MAX
    ensures Fits(entries, level, version) <==> 1 <= Mark(Lengths(entries, level), version) <= version
  {
    hide DataLength, StreamBits, MinimumVersion, GoodEntry, Bytes;
    StreamByRange(entries, version);
    var bits := |StreamBits(entries, version)|;
    LeastVersion(bits, level);
    var v := MinimumVersion(Bytes(bits), level);
    if bits <= 8 * DataLength(version, level) {
      LeastIsLeast(bits, level, version);
    } else if 1 <= v <= version {
      DataLengthMonotone(v, version, level);
    }
  }

  lemma LeastIsLeast(bits: nat, level: Level, version: nat)
    requires 1 <= version <= VERSION_MAX && bits <= 8 * DataLength(version, level)
    ensures 1 <= MinimumVersion(Bytes(bits), level) <= version
  {
    hide DataLength, FirstFit;
  }

  /** The least version, not below the first one, that the data fit; -1 when there is none. */
  function Best(version: nat, n: Marks): (v: int)
    ensures v == -1 || 1 <= v
  {
    if version <= 9 && 1 <= n.low <= 9 then Larger(version, n.low)
    else if version <= 26 && 1 <= n.middle <= 26 then Larger(Larger(version, n.middle), 10)
    else if 1 <= n.high then Larger(Larger(version, n.high), 27)
    else -1
  }

  lemma BestFits(entries: seq<Entry>, level: Level, version: nat)
    requires Good(entries) && version <= VERSION_MAX
    ensures var best := Best(version, Lengths(entries, level));
      && (best == -1 || (1 <= best <= VERSION_MAX && version <= best && Fits(entries, level, best)))
      && forall w: nat :: 1 <= w <= VERSION_MAX && version <= w && Fits(entries, level, w) ==> best != -1 && best <= w
  {
    hide Lengths, Fits, GoodEntry;
    var best := Best(version, Lengths(entries, level));
    if best != -1 {
      FitsByLeast(entries, level, best);
    }
    forall w: nat | 1 <= w <= VERSION_MAX && version <= w && Fits(entries, level, w) ensures best != -1 && best <= w {
      FitsByLeast(entries, level, w);
    }
  }

  /** A version that the data fit is kept if and only if the three estimates do not lead above it. */
  lemma VersionKept(entries: seq<Entry>, level: Level, version: nat)
    requires Good(entries) && 1 <= version <= VERSION_MAX && Fits(entries, level, version)
    ensures var m := Estimates(entries, level);
      (Converted(entries, level, version) == Settled(version, true)) <==>
      (if m.low <= 9 then m.low <= version else if m.low <= 26 && m.middle <= 26 then m.middle <= version else m.high <= version)
  {
    hide Lengths, Estimates, Fits, Converted, GoodEntry, MinimumVersion, Least;
    ConvertedClosed(entries, level, version);
    FitsByLeast(entries, level, version);
  }

  /** Does the search by real lengths get through, from a start? */
  predicate GetsThrough(start: nat, n: Marks) {
    if start <= 9 then n.low != -1 && (n.low <= 9 || GetsThroughAbove(n.low, n)) else GetsThroughAbove(start, n)
  }

  predicate GetsThroughAbove(start: int, n: Marks) {
    if start <= 26 then n.middle != -1 && (n.middle <= 26 || n.high != -1) else n.high != -1
  }

  /** convertData succeeds if and only if the real lengths let it through, from the first version or
      from where the estimates lead. */
  lemma AcceptedExactly(entries: seq<Entry>, level: Level, version: nat)
    requires Good(entries) && version <= VERSION_MAX
    ensures Converted(entries, level, version).ok
       <==> GetsThrough(Larger(Searched(Estimates(entries, level)), version), Lengths(entries, level))
  {
    hide Lengths, Estimates, Converted, GoodEntry, MinimumVersion, Least;
    ConvertedClosed(entries, level, version);
  }

  /** Neither the estimates nor a range passed on the way leads beyond `best`. */
  predicate StaysBelow(found: int, version: nat, n: Marks, best: int) {
    var start := Larger(found, version);
    && found <= best
    && (start <= 9 && 10 <= best ==> 1 <= n.low <= best)
    && (start <= 26 && 27 <= best && (10 <= start || n.low <= 26) ==> 1 <= n.middle <= best)
  }

  lemma EndedAtBest(found: int, version: nat, n: Marks)
    requires IsMarks(n) && Best(version, n) != -1
    ensures Ended(Larger(found, version), n) == Settled(Best(version, n), true) <==> StaysBelow(found, version, n, Best(version, n))
  {}

  /** When some version not below the first one holds the data, the least such version is what
      convertData ends with if and only if nothing leads it beyond. */
  lemma BestExactly(entries: seq<Entry>, level: Level, version: nat)
    requires Good(entries) && version <= VERSION_MAX && Best(version, Lengths(entries, level)) != -1
    ensures var n := Lengths(entries, level);
      (Converted(entries, level, version) == Settled(Best(version, n), true)) <==>
      StaysBelow(Searched(Estimates(entries, level)), version, n, Best(version, n))
  {
    hide Lengths, Estimates, Converted, GoodEntry, StaysBelow, Ended, MinimumVersion, Least;
    ConvertedClosed(entries, level, version);
    EndedAtBest(Searched(Estimates(entries, level)), version, Lengths(entries, level));
  }
}
