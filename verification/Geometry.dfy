/** The geometry that mkdosfs chooses and the one that dosfsck derives. */
module Geometry {
  // The non-Atari part of setup_tables in mkdosfs.c, and read_boot in boot.c. The checker computes
  // in words of 32 and 64 bits, and for some boot sectors they wrap around.
  import Arithmetic

  const MAX_CLUST_12 := 4080
  const MAX_CLUST_16 := 65520
  const MIN_CLUST_32 := 65529
  const MAX_CLUST_32 := 0x0fff_fff0
  const FAT12_THRESHOLD := 4085
  /** Most clusters that the checker takes for a 12-bit FAT. */
  const MSDOS_FAT12 := 4084

  type Word8 = x: int | 0 <= x < 0x100
  type Word16 = x: int | 0 <= x < 0x1_0000
  type Word32 = x: int | 0 <= x < 0x1_0000_0000

  /** Unsigned 32-bit arithmetic. */
  function U32(x: int): (r: nat)
    ensures 0 <= x < 0x1_0000_0000 ==> r == x
  {
    x % 0x1_0000_0000
  }

  /** Conversion to an unsigned 64-bit word. */
  function U64(x: int): (r: nat)
    ensures 0 <= x < 0x1_0000_0000_0000_0000 ==> r == x
    ensures -0x8000_0000_0000_0000 <= x < 0 ==> r == x + 0x1_0000_0000_0000_0000
  {
    x % 0x1_0000_0000_0000_0000
  }

  function Cdiv(a: nat, b: nat): (c: nat)
    requires 0 < b
    ensures b * c >= a && b * c <= a + b - 1
  {
    (a + b - 1) / b
  }

  /** What is asked for; fatBits is 0 when the FAT size is to be chosen. */
  datatype Params = Params(sectorSize: nat, fats: nat, rootEntries: nat, reserved: nat, numSectors: nat,
                           sectorsPerCluster: nat, guess: nat, fatBits: nat, byUser: bool, secsTrack: Word16, heads: Word16)

  predicate ClusterSize(cs: nat) {
    cs == 1 || cs == 2 || cs == 4 || cs == 8 || cs == 16 || cs == 32 || cs == 64 || cs == 128
  }

  /** Sectors for FATs and data. */
  function FatData(p: Params): int
    requires 0 < p.sectorSize
  {
    p.numSectors - Cdiv(p.rootEntries * 32, p.sectorSize) - p.reserved
  }

  function StartSize(p: Params): nat {
    if p.sectorsPerCluster > 0 then p.sectorsPerCluster else p.guess
  }

  /** Option values that the command line lets through, sizes that keep every word of the
      computation below from wrapping around, and a FAT size when the drive is large. */
  predicate Valid(p: Params) {
    && 512 <= p.sectorSize <= 32768 && p.sectorSize % 512 == 0
    && 1 <= p.fats <= 4 && 1 <= p.reserved <= 0xffff
    && (p.fatBits == 0 || p.fatBits == 12 || p.fatBits == 16 || p.fatBits == 32)
    && (p.byUser ==> p.fatBits != 0) && (p.fatBits == 12 || p.fatBits == 16 ==> p.byUser)
    && (if p.fatBits == 32 then p.rootEntries == 0 && 2 <= p.reserved else 1 <= p.rootEntries <= 32768)
    && ClusterSize(StartSize(p)) && p.numSectors < 0x1_0000_0000
    && 0 <= FatData(p) <= StartSize(p) * 0x1fff_0000
    && 1 <= p.secsTrack && 1 <= p.heads
  }

  // ----- one attempt -----

  /** Clusters and sectors of a FAT; no clusters when the attempt is rejected. */
  datatype Try = Try(clusters: nat, fatLength: nat)

  function Estimate12(f: nat, ss: nat, cs: nat, nr: nat): nat
    requires 0 < ss && 0 < cs
  {
    Quotient(2 * (f * ss + nr * 3), Divisor(ss, cs, nr, 3))
  }

  /** Half bytes that a cluster takes in the data area and the FATs, at k half bytes a FAT entry. */
  function Divisor(ss: nat, cs: nat, nr: nat, k: nat): (d: nat)
    requires 0 < ss && 0 < cs
    ensures 0 < d
  {
    Positive(cs, ss);
    2 * cs * ss + nr * k
  }

  lemma Positive(a: nat, b: nat)
    requires 0 < a && 0 < b
    ensures 0 < a * b && 2 * a * b == 2 * (a * b)
  {}

  function Quotient(a: nat, b: nat): nat
    requires 0 < b
  {
    a / b
  }

  function Area(cs: nat, ss: nat): (a: nat)
    requires 0 < ss && 0 < cs
    ensures 0 < a
  {
    Positive(cs, ss);
    cs * ss
  }

  function Estimate16(f: nat, ss: nat, cs: nat, nr: nat): nat
    requires 0 < ss && 0 < cs
  {
    Quotient(f * ss + nr * 4, Area(cs, ss) + nr * 2)
  }

  function Estimate32(f: nat, ss: nat, cs: nat, nr: nat): nat
    requires 0 < ss && 0 < cs
  {
    Quotient(f * ss + nr * 8, Area(cs, ss) + nr * 4)
  }

  function Length12(e: nat, ss: nat): nat
    requires 0 < ss
  {
    Cdiv(((e + 2) * 3 + 1) / 2, ss)
  }

  function Length16(e: nat, ss: nat): nat
    requires 0 < ss
  {
    Cdiv((e + 2) * 2, ss)
  }

  function Length32(e: nat, ss: nat): nat
    requires 0 < ss
  {
    Cdiv((e + 2) * 4, ss)
  }

  /** The number of clusters that the FATs leave room for; the subtraction is unsigned. */
  function Recomputed(f: nat, nr: nat, length: nat, cs: nat): nat
    requires 0 < cs
  {
    U32(f - nr * length) / cs
  }

  function Capped(max: nat, limit: nat): nat {
    if max > limit then limit else max
  }

  /** Is the count within what a FAT of so many bytes addresses? */
  function Judge12(clust: nat, length: nat, bytes: nat): Try {
    Try(if clust > Capped(bytes * 2 / 3, MAX_CLUST_12) - 2 then 0 else clust, length)
  }

  /** Below the threshold a 16-bit FAT would be taken for a 12-bit one. */
  function Judge16(clust: nat, length: nat, bytes: nat, asked: bool): Try {
    var fitting := if clust > Capped(bytes / 2, MAX_CLUST_16) - 2 then 0 else clust;
    Try(if fitting < FAT12_THRESHOLD && !asked then 0 else fitting, length)
  }

  function Judge32(clust: nat, length: nat, bytes: nat, asked: bool): Try {
    var enough := if clust != 0 && clust < MIN_CLUST_32 && !asked then 0 else clust;
    Try(if enough > Capped(bytes / 4, MAX_CLUST_32) then 0 else enough, length)
  }

  function Try12(f: nat, ss: nat, cs: nat, nr: nat): Try
    requires 0 < ss && 0 < cs
  {
    var length := Length12(Estimate12(f, ss, cs, nr), ss);
    Judge12(Recomputed(f, nr, length, cs), length, length * ss)
  }

  function Try16(f: nat, ss: nat, cs: nat, nr: nat, asked: bool): Try
    requires 0 < ss && 0 < cs
  {
    var length := Length16(Estimate16(f, ss, cs, nr), ss);
    Judge16(Recomputed(f, nr, length, cs), length, length * ss, asked)
  }

  function Try32(f: nat, ss: nat, cs: nat, nr: nat, asked: bool): Try
    requires 0 < ss && 0 < cs
  {
    var length := Length32(Estimate32(f, ss, cs, nr), ss);
    Judge32(Recomputed(f, nr, length, cs), length, length * ss, asked)
  }

  // ----- the recomputed count never exceeds the estimate -----

  lemma DivUpper(n: nat, d: nat)
    requires 0 < d
    ensures n < (n / d + 1) * d && (n / d) * d <= n
  {
    assert n == d * (n / d) + n % d;
  }

  lemma Times(a: int, b: int, c: nat)
    requires a <= b
    ensures a * c <= b * c
  {}

  /** With one cluster more than the estimate, data and FATs would not fit. */
  lemma Overshoot(f: nat, ss: nat, cs: nat, nr: nat, k: nat, e: nat, length: nat)
    requires 0 < ss && 0 < cs && 2 * ss * length >= k * (e + 2) && cs * (e + 1) + nr * length <= f
    ensures (e + 1) * Divisor(ss, cs, nr, k) <= 2 * f * ss
  {
    Times(cs * (e + 1) + nr * length, f, 2 * ss);
    SectorsToBytes(cs, e, nr, length, ss, f);
    Times(k * (e + 1), k * (e + 2), 1);
    Times(k * (e + 1), 2 * ss * length, nr);
    DivisorTimes(ss, cs, nr, k, e);
  }

  lemma SectorsToBytes(cs: nat, e: nat, nr: nat, length: nat, ss: nat, f: nat)
    ensures (cs * (e + 1) + nr * length) * (2 * ss) == (e + 1) * (2 * cs * ss) + (2 * ss * length) * nr
    ensures f * (2 * ss) == 2 * f * ss
  {
    var a, b, m := cs * (e + 1), nr * length, 2 * ss;
    assert (a + b) * m == a * m + b * m;
    Reassociate(cs, e + 1, ss);
    FatBytes(nr, length, ss);
  }

  lemma FatBytes(nr: nat, length: nat, ss: nat)
    ensures (nr * length) * (2 * ss) == (2 * ss * length) * nr
  {}

  lemma DivisorTimes(ss: nat, cs: nat, nr: nat, k: nat, e: nat)
    requires 0 < ss && 0 < cs
    ensures (e + 1) * Divisor(ss, cs, nr, k) == (e + 1) * (2 * cs * ss) + (k * (e + 1)) * nr
  {
    var x, y := 2 * cs * ss, nr * k;
    assert (e + 1) * (x + y) == (e + 1) * x + (e + 1) * y;
    Swapped(e + 1, nr, k);
  }

  lemma Swapped(a: nat, b: nat, c: nat)
    ensures a * (b * c) == (c * a) * b
  {}

  lemma CountTimes(f: nat, nr: nat, length: nat, cs: nat, e: nat)
    requires 0 < cs && nr * length <= f < 0x1_0000_0000 && e + 1 <= Recomputed(f, nr, length, cs)
    ensures cs * (e + 1) + nr * length <= f
  {
    var d := f - nr * length;
    assert 0 <= nr * length;
    DivUpper(d, cs);
    Times(e + 1, d / cs, cs);
  }

  /** e is the estimate for FAT entries of k half bytes. */
  predicate IsEstimate(f: nat, ss: nat, cs: nat, nr: nat, k: nat, e: nat)
    requires 0 < ss && 0 < cs
  {
    e * Divisor(ss, cs, nr, k) <= 2 * f * ss + 2 * (nr * k) < (e + 1) * Divisor(ss, cs, nr, k)
  }

  /** A FAT of `length` sectors has room for e + 2 entries, and no sector too many. */
  predicate IsLength(ss: nat, k: nat, e: nat, length: nat) {
    k * (e + 2) <= 2 * ss * length <= k * (e + 2) + 2 * ss - 1
  }

  lemma BelowEstimate(f: nat, ss: nat, cs: nat, nr: nat, k: nat, e: nat, length: nat)
    requires 0 < ss && 0 < cs && f < 0x1_0000_0000 && nr * length <= f
    requires IsEstimate(f, ss, cs, nr, k, e) && IsLength(ss, k, e, length)
    ensures Recomputed(f, nr, length, cs) <= e
  {
    hide Recomputed, Divisor;
    assert 0 <= nr * k;
    if e + 1 <= Recomputed(f, nr, length, cs) {
      CountTimes(f, nr, length, cs, e);
      Overshoot(f, ss, cs, nr, k, e, length);
    }
  }

  lemma Facts12(f: nat, ss: nat, cs: nat, nr: nat)
    requires 0 < ss && 0 < cs
    ensures var e := Estimate12(f, ss, cs, nr); IsEstimate(f, ss, cs, nr, 3, e) && IsLength(ss, 3, e, Length12(e, ss))
  {
    hide Divisor;
    var e := Estimate12(f, ss, cs, nr);
    DivUpper(2 * (f * ss + nr * 3), Divisor(ss, cs, nr, 3));
    assert 2 * f * ss == 2 * (f * ss);
    assert 2 * ss * Length12(e, ss) == 2 * (ss * Length12(e, ss));
  }

  lemma Twice(e: nat, d: nat)
    ensures e * (2 * d) == 2 * (e * d)
  {}

  lemma Facts16(f: nat, ss: nat, cs: nat, nr: nat)
    requires 0 < ss && 0 < cs
    ensures var e := Estimate16(f, ss, cs, nr); IsEstimate(f, ss, cs, nr, 4, e) && IsLength(ss, 4, e, Length16(e, ss))
  {
    var e, d := Estimate16(f, ss, cs, nr), cs * ss + nr * 2;
    Positive(cs, ss);
    assert Divisor(ss, cs, nr, 4) == 2 * d;
    hide Divisor;
    DivUpper(f * ss + nr * 4, d);
    Twice(e, d);
    Twice(e + 1, d);
    assert 2 * f * ss == 2 * (f * ss);
    assert 2 * ss * Length16(e, ss) == 2 * (ss * Length16(e, ss));
  }

  lemma Facts32(f: nat, ss: nat, cs: nat, nr: nat)
    requires 0 < ss && 0 < cs
    ensures var e := Estimate32(f, ss, cs, nr); IsEstimate(f, ss, cs, nr, 8, e) && IsLength(ss, 8, e, Length32(e, ss))
  {
    var e, d := Estimate32(f, ss, cs, nr), cs * ss + nr * 4;
    Positive(cs, ss);
    assert Divisor(ss, cs, nr, 8) == 2 * d;
    hide Divisor;
    DivUpper(f * ss + nr * 8, d);
    Twice(e, d);
    Twice(e + 1, d);
    assert 2 * f * ss == 2 * (f * ss);
    assert 2 * ss * Length32(e, ss) == 2 * (ss * Length32(e, ss));
  }

  /** For all three FAT sizes the recomputed count is at most the estimate that the FAT was sized
      for, so count + 2 entries fit the FAT. */
  lemma CountNeverExceedsEstimate(f: nat, ss: nat, cs: nat, nr: nat)
    requires 0 < ss && 0 < cs && f < 0x1_0000_0000
    ensures var e := Estimate12(f, ss, cs, nr); var length := Length12(e, ss);
      nr * length <= f ==> Recomputed(f, nr, length, cs) <= e && 3 * (Recomputed(f, nr, length, cs) + 2) <= 2 * (length * ss)
    ensures var e := Estimate16(f, ss, cs, nr); var length := Length16(e, ss);
      nr * length <= f ==> Recomputed(f, nr, length, cs) <= e && 4 * (Recomputed(f, nr, length, cs) + 2) <= 2 * (length * ss)
    ensures var e := Estimate32(f, ss, cs, nr); var length := Length32(e, ss);
      nr * length <= f ==> Recomputed(f, nr, length, cs) <= e && 8 * (Recomputed(f, nr, length, cs) + 2) <= 2 * (length * ss)
  {
    hide Estimate12, Estimate16, Estimate32, Length12, Length16, Length32, Recomputed, IsEstimate;
    Facts12(f, ss, cs, nr);
    Facts16(f, ss, cs, nr);
    Facts32(f, ss, cs, nr);
    FitsWhenBelow(f, ss, cs, nr, 3, Estimate12(f, ss, cs, nr), Length12(Estimate12(f, ss, cs, nr), ss));
    FitsWhenBelow(f, ss, cs, nr, 4, Estimate16(f, ss, cs, nr), Length16(Estimate16(f, ss, cs, nr), ss));
    FitsWhenBelow(f, ss, cs, nr, 8, Estimate32(f, ss, cs, nr), Length32(Estimate32(f, ss, cs, nr), ss));
  }

  lemma FitsWhenBelow(f: nat, ss: nat, cs: nat, nr: nat, k: nat, e: nat, length: nat)
    requires 0 < ss && 0 < cs && f < 0x1_0000_0000
    requires IsEstimate(f, ss, cs, nr, k, e) && IsLength(ss, k, e, length)
    ensures nr * length <= f ==> Recomputed(f, nr, length, cs) <= e && k * (Recomputed(f, nr, length, cs) + 2) <= 2 * (length * ss)
  {
    hide IsEstimate, Recomputed;
    if nr * length <= f {
      BelowEstimate(f, ss, cs, nr, k, e, length);
      Times(Recomputed(f, nr, length, cs) + 2, e + 2, k);
      assert 2 * ss * length == 2 * (length * ss);
    }
  }

  // ----- a FAT larger than the partition -----

  lemma EstimateSmall(f: nat, ss: nat, cs: nat, nr: nat, k: nat, e: nat)
    requires 0 < ss && 0 < cs && IsEstimate(f, ss, cs, nr, k, e)
    ensures e <= f + 1
  {
    hide Divisor;
    var d, c := Divisor(ss, cs, nr, k), nr * k;
    DivisorParts(f, ss, cs, nr, k, 1);
    Times(2 * ss + c, d, f + 2);
    Expanded(f, ss, c);
    if f + 2 <= e {
      Times(f + 2, e, d);
    }
  }

  lemma Expanded(f: nat, ss: nat, c: nat)
    ensures 2 * f * ss + 4 * ss + 2 * c <= (2 * ss + c) * (f + 2)
  {
    assert (2 * ss + c) * (f + 2) == 2 * f * ss + 4 * ss + f * c + 2 * c;
  }

  /** When the FATs would not fit, the unsigned subtraction wraps around, but only by a little, so
      that the count comes out far above every limit. */
  lemma WrapIsHuge(f: nat, ss: nat, cs: nat, nr: nat, k: nat, e: nat, length: nat)
    requires 512 <= ss <= 32768 && 1 <= cs <= 128 && 1 <= nr <= 4 && k <= 8 && f < 0x1_0000_0000
    requires IsEstimate(f, ss, cs, nr, k, e) && IsLength(ss, k, e, length) && f < nr * length
    ensures length <= 1 && 33_000_000 < Recomputed(f, nr, length, cs)
  {
    hide IsEstimate, Divisor;
    EstimateSmall(f, ss, cs, nr, k, e);
    Times(k, 8, e + 2);
    assert 2 * ss * length <= 8 * (f + 3) + 2 * ss - 1;
    Times(f + 1, nr * length, 2 * ss);
    assert (nr * length) * (2 * ss) == nr * (2 * ss * length);
    Times(2 * ss * length, 8 * (f + 3) + 2 * ss - 1, nr);
    Times(nr, 4, 8 * (f + 3) + 2 * ss - 1);
    assert (f + 1) * (2 * ss) <= 4 * (8 * (f + 3) + 2 * ss - 1);
    SmallPartition(f, ss);
    assert 2 * ss * length < 4 * ss;
    OneSector(ss, length);
    LittleWrap(f, nr, length, cs);
  }

  lemma SmallPartition(f: nat, ss: nat)
    requires 512 <= ss && (f + 1) * (2 * ss) <= 4 * (8 * (f + 3) + 2 * ss - 1)
    ensures f <= 3
  {
    var m := 2 * ss;
    assert (f + 1) * m == f * m + m;
    Times(1024, m, f);
    if 4 <= f {
      Growth(f, m);
    }
  }

  lemma Growth(f: nat, m: nat)
    requires 4 <= f && 1024 <= m
    ensures 32 * f + 4 * m + 96 < f * m + m + 4
  {
    assert f * m == (f - 4) * m + 4 * m;
    Times(1024, m, f - 4);
  }

  lemma OneSector(ss: nat, length: nat)
    requires 0 < ss && 2 * ss * length < 4 * ss
    ensures length <= 1
  {
    if 2 <= length {
      Times(2, length, 2 * ss);
    }
  }

  lemma LittleWrap(f: nat, nr: nat, length: nat, cs: nat)
    requires f < nr * length && nr <= 4 && length <= 1 && 1 <= cs <= 128
    ensures 33_000_000 < Recomputed(f, nr, length, cs)
  {
    Times(nr, 4, length);
    var w := U32(f - nr * length);
    assert w == 0x1_0000_0000 + f - nr * length;
    DivUpper(w, cs);
    Times(cs, 128, 33_000_001);
    if w / cs <= 33_000_000 {
      Times(w / cs + 1, 33_000_001, cs);
    }
  }

  // ----- what an accepted attempt means -----

  /** The clusters and FATs of an accepted attempt are those of the partition, and every cluster
      has its entry. */
  predicate Sound(f: nat, ss: nat, cs: nat, nr: nat, halves: nat, t: Try)
    requires 0 < cs
  {
    && nr * t.fatLength <= f && t.clusters == (f - nr * t.fatLength) / cs
    && halves * (t.clusters + 2) <= 2 * (t.fatLength * ss) && 1 <= t.fatLength
  }

  /** The estimate is close to the count, so the FATs of FAT12 and FAT16 are short. */
  lemma ShortFat(f: nat, ss: nat, cs: nat, nr: nat, k: nat, e: nat, length: nat)
    requires Sizes(f, ss, cs, nr) && 1 <= k <= 4 && IsEstimate(f, ss, cs, nr, k, e) && IsLength(ss, k, e, length)
    requires nr * length <= f && (f - nr * length) / cs <= 65518
    ensures length <= 0xffff
  {
    hide IsEstimate, Divisor;
    CloseEstimate(f, ss, cs, nr, k, e, length);
    Times(k, 4, e + 2);
    assert 2 * ss * length <= 4 * (e + 2) + 2 * ss - 1;
    if 0x1_0000 <= length {
      Times(0x1_0000, length, 2 * ss);
    }
  }

  lemma CloseEstimate(f: nat, ss: nat, cs: nat, nr: nat, k: nat, e: nat, length: nat)
    requires Sizes(f, ss, cs, nr) && 1 <= k <= 4 && IsEstimate(f, ss, cs, nr, k, e) && IsLength(ss, k, e, length)
    requires nr * length <= f
    ensures e <= (f - nr * length) / cs + 6
  {
    hide IsEstimate, IsLength, Divisor;
    var c, m := (f - nr * length) / cs, 2 * ss;
    EstimateUpper(f, ss, cs, nr, k, e);
    LengthUpper(ss, k, e, length);
    UpperShare(f, ss, cs, nr, length, k, e);
    DataShare(ss, cs, nr, k, e, c);
    FatShare(nr, k, e, m);
    Squeeze(e * Divisor(ss, cs, nr, k), 2 * f * ss, nr * k, (c + 1) * cs * m, nr * (k * (e + 2) + m - 1), e * (nr * k), e * cs * m, m);
    if c + 7 <= e {
      TooClose(cs, c, e, m);
    }
  }

  lemma EstimateUpper(f: nat, ss: nat, cs: nat, nr: nat, k: nat, e: nat)
    requires 0 < ss && 0 < cs && IsEstimate(f, ss, cs, nr, k, e)
    ensures e * Divisor(ss, cs, nr, k) <= 2 * f * ss + 2 * (nr * k)
  {
    hide Divisor;
  }

  lemma LengthUpper(ss: nat, k: nat, e: nat, length: nat)
    requires IsLength(ss, k, e, length)
    ensures 2 * ss * length <= k * (e + 2) + 2 * ss - 1
  {}

  lemma Squeeze(both: int, whole: int, q: int, data: int, fats: int, share: int, clusters: int, m: nat)
    requires both <= whole + 2 * q && both == clusters + share
    requires whole <= data + fats && fats + 2 * q <= share + 5 * m - m / 8
    ensures clusters <= data + 5 * m
  {}

  lemma UpperShare(f: nat, ss: nat, cs: nat, nr: nat, length: nat, k: nat, e: nat)
    requires 0 < cs && nr * length <= f && 2 * ss * length <= k * (e + 2) + 2 * ss - 1
    ensures var c, m := (f - nr * length) / cs, 2 * ss; 2 * f * ss <= (c + 1) * cs * m + nr * (k * (e + 2) + m - 1)
  {
    var c, m := (f - nr * length) / cs, 2 * ss;
    DivUpper(f - nr * length, cs);
    Times(f, (c + 1) * cs + nr * length, m);
    assert m * length == 2 * ss * length;
    Times(m * length, k * (e + 2) + m - 1, nr);
    assert ((c + 1) * cs + nr * length) * m == (c + 1) * cs * m + (m * length) * nr;
    assert 2 * f * ss == f * m;
  }

  lemma FatShare(nr: nat, k: nat, e: nat, m: nat)
    requires 1 <= nr <= 4 && 1 <= k <= 4 && 1024 <= m
    ensures nr * (k * (e + 2) + m - 1) + 2 * (nr * k) <= e * (nr * k) + 5 * m - m / 8
  {
    var q := nr * k;
    Times(nr, 4, k);
    assert q <= 16;
    assert nr * (k * (e + 2) + m - 1) == e * q + 2 * q + nr * m - nr;
    Times(nr, 4, m);
  }

  lemma DataShare(ss: nat, cs: nat, nr: nat, k: nat, e: nat, c: nat)
    requires 0 < ss && 0 < cs
    ensures e * Divisor(ss, cs, nr, k) == e * cs * (2 * ss) + e * (nr * k)
  {
    assert 2 * cs * ss == cs * (2 * ss);
  }

  lemma TooClose(cs: nat, c: nat, e: nat, m: nat)
    requires 1 <= cs && c + 7 <= e && 0 < m
    ensures (c + 1) * cs * m + 6 * m <= e * cs * m
  {
    Times(c + 7, e, cs);
    assert (c + 7) * cs == (c + 1) * cs + 6 * cs;
    Times((c + 1) * cs + 6, e * cs, m);
  }

  predicate Sizes(f: nat, ss: nat, cs: nat, nr: nat) {
    512 <= ss <= 32768 && 1 <= cs <= 128 && 1 <= nr <= 4 && f < 0x1_0000_0000
  }

  lemma RecomputedPlain(f: nat, nr: nat, length: nat, cs: nat)
    requires 0 < cs && nr * length <= f < 0x1_0000_0000
    ensures Recomputed(f, nr, length, cs) == (f - nr * length) / cs
  {
    assert 0 <= nr * length;
  }

  /** Either the FATs fit and the count is sound, or the count is far too large. */
  lemma CountSound(f: nat, ss: nat, cs: nat, nr: nat, k: nat, e: nat, length: nat)
    requires Sizes(f, ss, cs, nr) && 1 <= k <= 8 && IsEstimate(f, ss, cs, nr, k, e) && IsLength(ss, k, e, length)
    ensures var c := Recomputed(f, nr, length, cs);
      if nr * length <= f then Sound(f, ss, cs, nr, k, Try(c, length)) && (c <= 65518 && k <= 4 ==> length <= 0xffff)
      else 33_000_000 < c && length * ss <= 32768
  {
    hide IsEstimate, Divisor, Recomputed;
    if nr * length <= f {
      FitsWhenBelow(f, ss, cs, nr, k, e, length);
      RecomputedPlain(f, nr, length, cs);
      if k <= 4 && (f - nr * length) / cs <= 65518 {
        ShortFat(f, ss, cs, nr, k, e, length);
      }
      FatNotEmpty(k, Recomputed(f, nr, length, cs), length, ss);
    } else {
      WrapIsHuge(f, ss, cs, nr, k, e, length);
      Times(length, 1, ss);
    }
  }

  lemma FatNotEmpty(k: nat, c: nat, length: nat, ss: nat)
    requires 1 <= k && k * (c + 2) <= 2 * (length * ss)
    ensures 1 <= length
  {
    Times(1, k, c + 2);
    if length == 0 {
      Times(length, 0, ss);
    }
  }

  /** A 12-bit FAT is only accepted with at most 4078 clusters. */
  lemma Try12Sound(f: nat, ss: nat, cs: nat, nr: nat)
    requires Sizes(f, ss, cs, nr)
    ensures var t := Try12(f, ss, cs, nr);
      t.clusters != 0 ==> Sound(f, ss, cs, nr, 3, t) && t.clusters <= 4078 && t.fatLength <= 0xffff
  {
    hide Estimate12, Length12, Recomputed, Sound, IsEstimate, IsLength;
    var e := Estimate12(f, ss, cs, nr);
    Facts12(f, ss, cs, nr);
    CountSound(f, ss, cs, nr, 3, e, Length12(e, ss));
  }

  lemma Try16Sound(f: nat, ss: nat, cs: nat, nr: nat, asked: bool)
    requires Sizes(f, ss, cs, nr)
    ensures var t := Try16(f, ss, cs, nr, asked);
      t.clusters != 0 ==> Sound(f, ss, cs, nr, 4, t) && t.clusters <= 65518 && t.fatLength <= 0xffff && (!asked ==> FAT12_THRESHOLD <= t.clusters)
  {
    hide Estimate16, Length16, Recomputed, Sound, IsEstimate, IsLength;
    var e := Estimate16(f, ss, cs, nr);
    Facts16(f, ss, cs, nr);
    CountSound(f, ss, cs, nr, 4, e, Length16(e, ss));
  }

  lemma Try32Sound(f: nat, ss: nat, cs: nat, nr: nat, asked: bool)
    requires Sizes(f, ss, cs, nr)
    ensures var t := Try32(f, ss, cs, nr, asked);
      t.clusters != 0 ==> Sound(f, ss, cs, nr, 8, t) && t.clusters <= MAX_CLUST_32 && (!asked ==> MIN_CLUST_32 <= t.clusters)
  {
    hide Estimate32, Length32, Recomputed, Sound, IsEstimate, IsLength;
    var e := Estimate32(f, ss, cs, nr);
    Facts32(f, ss, cs, nr);
    CountSound(f, ss, cs, nr, 8, e, Length32(e, ss));
  }

  // ----- exactly when an attempt is accepted -----

  /** Clusters beside FATs of some length. */
  function Beside(f: nat, nr: nat, length: nat, cs: nat): int
    requires 0 < cs
  {
    (f - nr * length) / cs
  }

  /** 12 bits: the FATs fit and the clusters beside them are from 1 to 4078. */
  lemma Try12Exactly(f: nat, ss: nat, cs: nat, nr: nat)
    requires Sizes(f, ss, cs, nr)
    ensures var t, length := Try12(f, ss, cs, nr), Length12(Estimate12(f, ss, cs, nr), ss);
      && (t.clusters != 0 <==> nr * length <= f && 1 <= Beside(f, nr, length, cs) <= 4078)
      && (t.clusters != 0 ==> t == Try(Beside(f, nr, length, cs), length))
  {
    hide Estimate12, Length12, Recomputed, IsEstimate, IsLength;
    var e := Estimate12(f, ss, cs, nr);
    var length := Length12(e, ss);
    Facts12(f, ss, cs, nr);
    CountSound(f, ss, cs, nr, 3, e, length);
    if nr * length <= f {
      RecomputedPlain(f, nr, length, cs);
    }
  }

  /** 16 bits: from 4085, or from 1 when asked for, to 65518. */
  lemma Try16Exactly(f: nat, ss: nat, cs: nat, nr: nat, asked: bool)
    requires Sizes(f, ss, cs, nr)
    ensures var t, length := Try16(f, ss, cs, nr, asked), Length16(Estimate16(f, ss, cs, nr), ss);
      && (t.clusters != 0 <==> nr * length <= f && (if asked then 1 else 4085) <= Beside(f, nr, length, cs) <= 65518)
      && (t.clusters != 0 ==> t == Try(Beside(f, nr, length, cs), length))
  {
    hide Estimate16, Length16, Recomputed, IsEstimate, IsLength;
    var e := Estimate16(f, ss, cs, nr);
    var length := Length16(e, ss);
    Facts16(f, ss, cs, nr);
    CountSound(f, ss, cs, nr, 4, e, length);
    if nr * length <= f {
      RecomputedPlain(f, nr, length, cs);
    }
  }

  /** 32 bits: from 65529, or from 1 when asked for, to 268435440. */
  lemma Try32Exactly(f: nat, ss: nat, cs: nat, nr: nat, asked: bool)
    requires Sizes(f, ss, cs, nr)
    ensures var t, length := Try32(f, ss, cs, nr, asked), Length32(Estimate32(f, ss, cs, nr), ss);
      && (t.clusters != 0 <==> nr * length <= f && (if asked then 1 else 65529) <= Beside(f, nr, length, cs) <= 268435440)
      && (t.clusters != 0 ==> t == Try(Beside(f, nr, length, cs), length))
  {
    hide Estimate32, Length32, Recomputed, IsEstimate, IsLength;
    var e := Estimate32(f, ss, cs, nr);
    var length := Length32(e, ss);
    Facts32(f, ss, cs, nr);
    CountSound(f, ss, cs, nr, 8, e, length);
    if nr * length <= f {
      RecomputedPlain(f, nr, length, cs);
    }
  }

  /** Valid parameters keep every product and sum of an attempt within its machine word, so that
      only the subtraction in the recomputed count can wrap around. */
  lemma WordsFit(f: nat, ss: nat, cs: nat, nr: nat)
    requires Sizes(f, ss, cs, nr) && f <= cs * 0x1fff_0000
    ensures var e := Estimate12(f, ss, cs, nr); 3 * (e + 2) + 1 + 2 * ss < 0x8000_0000 && 2 * ss * Length12(e, ss) < 0x1_0000_0000
    ensures var e := Estimate16(f, ss, cs, nr); 2 * (e + 2) + ss < 0x8000_0000 && ss * Length16(e, ss) < 0x1_0000_0000
    ensures var e := Estimate32(f, ss, cs, nr); 4 * (e + 2) + ss < 0x8000_0000 && ss * Length32(e, ss) < 0x1_0000_0000
  {
    hide Estimate12, Estimate16, Estimate32, Length12, Length16, Length32, IsEstimate;
    Facts12(f, ss, cs, nr);
    Facts16(f, ss, cs, nr);
    Facts32(f, ss, cs, nr);
    EstimateUnder(f, ss, cs, nr, 3, Estimate12(f, ss, cs, nr));
    EstimateUnder(f, ss, cs, nr, 4, Estimate16(f, ss, cs, nr));
    EstimateUnder(f, ss, cs, nr, 8, Estimate32(f, ss, cs, nr));
    Halved(ss, Length16(Estimate16(f, ss, cs, nr), ss));
    Halved(ss, Length32(Estimate32(f, ss, cs, nr), ss));
  }

  lemma Halved(ss: nat, length: nat)
    ensures 2 * ss * length == 2 * (ss * length)
  {}

  lemma EstimateUnder(f: nat, ss: nat, cs: nat, nr: nat, k: nat, e: nat)
    requires Sizes(f, ss, cs, nr) && k <= 8 && f <= cs * 0x1fff_0000 && IsEstimate(f, ss, cs, nr, k, e)
    ensures e <= 0x1fff_0000
  {
    var d, b := Divisor(ss, cs, nr, k), 0x1fff_0000;
    Times(nr, 4, k);
    Times(f, cs * b, 2 * ss);
    DivisorParts(f, ss, cs, nr, k, b);
    hide Divisor;
    if b + 1 <= e {
      Times(b + 1, e, d);
    }
  }

  lemma DivisorParts(f: nat, ss: nat, cs: nat, nr: nat, k: nat, b: nat)
    requires 0 < ss && 0 < cs
    ensures f * (2 * ss) == 2 * f * ss
    ensures (cs * b) * (2 * ss) + b * (nr * k) == b * Divisor(ss, cs, nr, k)
    ensures 2 * ss + nr * k <= Divisor(ss, cs, nr, k)
  {
    var x, q := 2 * cs * ss, nr * k;
    assert f * (2 * ss) == 2 * f * ss;
    Reassociate(cs, b, ss);
    assert b * (x + q) == b * x + b * q;
    Times(1, cs, 2 * ss);
    assert cs * (2 * ss) == x;
  }

  lemma Reassociate(cs: nat, b: nat, ss: nat)
    ensures (cs * b) * (2 * ss) == b * (2 * cs * ss)
  {}

  // ----- the search -----

  /** The file system that is made. */
  datatype Layout = Layout(fatBits: nat, clusters: nat, fatLength: nat, clusterSize: nat)

  function Asked(p: Params, bits: nat): bool {
    p.byUser && p.fatBits == bits
  }

  datatype Attempt = Attempt(t12: Try, t16: Try, t32: Try)

  function AttemptAt(p: Params, cs: nat): Attempt
    requires Valid(p) && 0 < cs
  {
    var f := FatData(p);
    Attempt(Try12(f, p.sectorSize, cs, p.fats), Try16(f, p.sectorSize, cs, p.fats, Asked(p, 16)),
            Try32(f, p.sectorSize, cs, p.fats, Asked(p, 32)))
  }

  /** The search stops when some FAT that is allowed has clusters. */
  predicate Accepts(fatBits: nat, a: Attempt) {
    || (a.t12.clusters != 0 && (fatBits == 0 || fatBits == 12))
    || (a.t16.clusters != 0 && (fatBits == 0 || fatBits == 16))
    || (a.t32.clusters != 0 && fatBits == 32)
  }

  /** The cluster sizes that the loop may try. */
  predicate Candidate(p: Params, cs: nat) {
    ClusterSize(cs) && StartSize(p) <= cs && (p.sectorsPerCluster > 0 ==> cs == p.sectorsPerCluster)
  }

  /** The layout is that of the smallest candidate that is accepted; without a wish the FAT that
      gives more clusters is taken, 12 bits if both give the same. */
  ghost predicate Chosen(p: Params, g: Layout)
    requires Valid(p)
  {
    && Candidate(p, g.clusterSize)
    && (forall c: nat :: Candidate(p, c) && c < g.clusterSize ==> !Accepts(p.fatBits, AttemptAt(p, c)))
    && var a := AttemptAt(p, g.clusterSize);
       Accepts(p.fatBits, a)
       && g.fatBits == (if p.fatBits != 0 then p.fatBits else if a.t16.clusters > a.t12.clusters then 16 else 12)
       && Try(g.clusters, g.fatLength) == (if g.fatBits == 12 then a.t12 else if g.fatBits == 16 then a.t16 else a.t32)
  }

  /** The fields of the boot sector that the checker reads. */
  datatype Boot = Boot(sectorSize: Word16, clusterSize: Word8, reserved: Word16, fats: Word8, dirEntries: Word16, sectors: Word16,
                       fatLength: Word16, secsTrack: Word16, heads: Word16, totalSect: Word32, fat32Length: Word32, rootCluster: Word32)

  /** Every field holds what fits its word. */
  function BootOf(p: Params, g: Layout): Boot {
    Boot(p.sectorSize % 0x1_0000, g.clusterSize % 256, p.reserved % 0x1_0000, p.fats % 256, p.rootEntries % 0x1_0000,
         if p.numSectors >= 0x1_0000 then 0 else p.numSectors,
         if g.fatBits == 32 then 0 else g.fatLength % 0x1_0000, p.secsTrack, p.heads,
         if p.numSectors >= 0x1_0000 then U32(p.numSectors) else 0,
         if g.fatBits == 32 then U32(g.fatLength) else 0, if g.fatBits == 32 then 2 else 0)
  }

  datatype Made = Made(g: Layout, boot: Boot) | Refused

  /** The geometry of setup_tables. */
  class Mkdosfs {
    const p: Params
    var clusterSize: nat

    constructor (p: Params)
      ensures this.p == p
    {
      this.p := p;
      clusterSize := p.guess;
    }

    /** The search doubles the one-byte field bs.cluster_size until a FAT is accepted or the field
        passes its limit. */
    method SetupTables() returns (r: Made)
      requires Valid(p)
      modifies this
      ensures r.Made? ==> Chosen(p, r.g) && 0 < r.g.clusters && r.boot == BootOf(p, r.g) && clusterSize == r.g.clusterSize
      ensures r.Refused? ==> forall c: nat :: Candidate(p, c) ==> !Accepts(p.fatBits, AttemptAt(p, c))
    {
      hide Try12, Try16, Try32, FatData;
      var maxclustsize := 128;
      clusterSize := p.guess;
      if p.sectorsPerCluster > 0 {
        clusterSize := p.sectorsPerCluster;
        maxclustsize := p.sectorsPerCluster;
      }
      var a := AttemptAt(p, clusterSize);
      var again := true;
      while again
        invariant again ==> Candidate(p, clusterSize) && clusterSize <= maxclustsize
        invariant again ==> forall c: nat :: Candidate(p, c) && c < clusterSize ==> !Accepts(p.fatBits, AttemptAt(p, c))
        invariant !again && Accepts(p.fatBits, a) ==>
          Candidate(p, clusterSize) && a == AttemptAt(p, clusterSize)
          && forall c: nat :: Candidate(p, c) && c < clusterSize ==> !Accepts(p.fatBits, AttemptAt(p, c))
        invariant !again && !Accepts(p.fatBits, a) ==> forall c: nat :: Candidate(p, c) ==> !Accepts(p.fatBits, AttemptAt(p, c))
        decreases again, 256 - clusterSize
      {
        a := AttemptAt(p, clusterSize);
        if Accepts(p.fatBits, a) {
          again := false;
        } else {
          clusterSize := clusterSize * 2 % 256;
          again := clusterSize != 0 && clusterSize <= maxclustsize;
        }
      }
      var bits := if p.fatBits != 0 then p.fatBits else if a.t16.clusters > a.t12.clusters then 16 else 12;
      var t := if bits == 12 then a.t12 else if bits == 16 then a.t16 else a.t32;
      if t.clusters == 0 {
        return Refused;
      }
      var g := Layout(bits, t.clusters, t.fatLength, clusterSize);
      return Made(g, BootOf(p, g));
    }
  }

  /** What is made holds together: clusters, FATs and their limits. */
  lemma ChosenIsSound(p: Params, g: Layout)
    requires Valid(p) && Chosen(p, g) && 0 < g.clusters
    ensures var f := FatData(p);
      && Sound(f, p.sectorSize, g.clusterSize, p.fats, if g.fatBits == 12 then 3 else if g.fatBits == 16 then 4 else 8, Try(g.clusters, g.fatLength))
      && (g.fatBits == 12 || g.fatBits == 16 || g.fatBits == 32)
      && (g.fatBits == 12 ==> g.clusters <= 4078 && g.fatLength <= 0xffff)
      && (g.fatBits == 16 ==> g.fatLength <= 0xffff && (p.fatBits == 0 ==> FAT12_THRESHOLD <= g.clusters))
  {
    hide Try12, Try16, Try32, Sound;
    var f := FatData(p);
    Try12Sound(f, p.sectorSize, g.clusterSize, p.fats);
    Try16Sound(f, p.sectorSize, g.clusterSize, p.fats, Asked(p, 16));
    Try32Sound(f, p.sectorSize, g.clusterSize, p.fats, Asked(p, 32));
  }

  /** Without a wish, neither width has more clusters at that size, and 12 bits are taken for as many. */
  lemma ChosenIsMost(p: Params, g: Layout)
    requires Valid(p) && Chosen(p, g) && p.fatBits == 0
    ensures var a := AttemptAt(p, g.clusterSize);
      && a.t12.clusters <= g.clusters && a.t16.clusters <= g.clusters && 0 < g.clusters
      && (g.fatBits == 16 <==> g.clusters != a.t12.clusters)
  {
    hide Try12, Try16, Try32;
  }

  // ----- reading the boot sector -----

  datatype Death = Alive | NoSectorSize | NoClusterSize | BadFatCount | NoRoot | TooManyClusters | EmptyRoot | OddRoot | OddSector | NoGeometry

  /** ROUND_TO_MULTIPLE. */
  function RoundToMultiple(n: nat, m: nat): int {
    if n != 0 && m != 0 then n + m - 1 - (n - 1) % m else 0
  }

  /** The file-system record of the checker. */
  class DosFs {
    var nfats: nat
    var clusterSize: nat
    var fatStart: int
    var rootStart: int
    var dataStart: int
    var rootEntries: nat
    var clusters: nat
    var rootCluster: nat
    var fatBits: nat
    var effFatBits: nat
    var fatSize: nat

    constructor ()
    {
    }

    /** read_boot, for non-Atari disks; the sectors of FAT32 that hold no geometry are left out. */
    method ReadBoot(b: Boot) returns (died: Death)
      modifies this
      ensures died == Alive ==> nfats == b.fats && clusterSize == b.clusterSize * b.sectorSize && 0 < clusterSize
      ensures died == Alive ==> clusters == Count(b) && fatBits == Width(b, clusters) && fatSize == FatSize(b)
      ensures died == Alive ==> fatStart == b.reserved * b.sectorSize && rootStart == RootStart(b)
      ensures died == Alive ==> rootEntries == b.dirEntries && dataStart - rootStart == RoundToMultiple(rootEntries * 32, b.sectorSize)
      ensures died == Alive ==> rootCluster == (if fatBits == 32 then b.rootCluster else 0) && effFatBits == if fatBits == 32 then 28 else fatBits
      ensures died == Alive <==> Acceptable(b)
    {
      hide FatLength, RoundToMultiple, Width, FatSize, EntryLimit;
      if b.sectorSize == 0 {
        return NoSectorSize;
      }
      clusterSize := b.clusterSize * b.sectorSize;
      if clusterSize == 0 {
        return NoClusterSize;
      }
      if b.fats != 2 && b.fats != 1 {
        return BadFatCount;
      }
      nfats := b.fats;
      var totalSectors := if b.sectors != 0 then b.sectors else b.totalSect;
      var fatLength := if b.fatLength != 0 then b.fatLength else b.fat32Length;
      assert fatLength == FatLength(b) && U32(fatLength * b.sectorSize) == FatSize(b) by {
        FatWords(b);
      }
      fatStart := b.reserved * b.sectorSize;
      rootStart := (b.reserved + U32(b.fats * fatLength)) * b.sectorSize;
      rootEntries := b.dirEntries;
      dataStart := rootStart + RoundToMultiple(rootEntries * 32, b.sectorSize);
      var dataSize := totalSectors * b.sectorSize - dataStart;
      clusters := U64(Arithmetic.TruncDiv(dataSize, clusterSize));
      assert clusters == Count(b);
      fatSize := U32(fatLength * b.sectorSize);
      died := ReadWidth(b);
      if died != Alive {
        return;
      }
      if rootEntries % 16 != 0 {
        return OddRoot;
      }
      if b.sectorSize % 512 != 0 {
        return OddSector;
      }
      if b.secsTrack == 0 || b.heads == 0 {
        return NoGeometry;
      }
      return Alive;
    }

    /** The part of read_boot that decides on the FAT width and looks for room for all entries. */
    method ReadWidth(b: Boot) returns (died: Death)
      requires rootEntries == b.dirEntries
      modifies this`rootCluster, this`fatBits, this`effFatBits
      ensures fatBits == Width(b, clusters) || died == NoRoot
      ensures died == Alive ==> rootCluster == (if fatBits == 32 then b.rootCluster else 0) && effFatBits == if fatBits == 32 then 28 else fatBits
      ensures died == Alive <==> clusters <= EntryLimit(fatSize, Width(b, clusters)) && HasRoot(b, Width(b, clusters))
    {
      hide U64;
      rootCluster := 0;
      if b.fatLength == 0 && b.fat32Length != 0 {
        fatBits := 32;
        rootCluster := b.rootCluster;
        if rootCluster == 0 && rootEntries == 0 {
          return NoRoot;
        }
      } else {
        fatBits := if clusters > MSDOS_FAT12 then 16 else 12;
      }
      effFatBits := if fatBits == 32 then 28 else fatBits;
      if clusters > U64(fatSize * 8 / fatBits - 2) {
        return TooManyClusters;
      }
      if rootEntries == 0 && rootCluster == 0 {
        return EmptyRoot;
      }
      return Alive;
    }
  }

  function FatLength(b: Boot): Word32 {
    if b.fatLength != 0 then b.fatLength else b.fat32Length
  }

  lemma FatWords(b: Boot)
    ensures FatLength(b) == (if b.fatLength != 0 then b.fatLength else b.fat32Length)
    ensures FatSize(b) == U32(FatLength(b) * b.sectorSize)
  {}

  /** Bytes of a FAT, in a 32-bit word. */
  function FatSize(b: Boot): nat {
    U32(FatLength(b) * b.sectorSize)
  }

  /** The sectors of all FATs are counted in a 32-bit word. */
  function RootStart(b: Boot): nat {
    (b.reserved + U32(b.fats * FatLength(b))) * b.sectorSize
  }

  /** Bytes behind the root directory, negative when the device ends before. */
  function DataSize(b: Boot): int {
    (if b.sectors != 0 then b.sectors else b.totalSect) * b.sectorSize - (RootStart(b) + RoundToMultiple(b.dirEntries * 32, b.sectorSize))
  }

  /** The cluster count: a signed division, its result in an unsigned word. */
  function Count(b: Boot): nat
    requires b.clusterSize * b.sectorSize != 0
  {
    U64(Arithmetic.TruncDiv(DataSize(b), b.clusterSize * b.sectorSize))
  }

  function Width(b: Boot, clusters: nat): (w: nat)
    ensures w == 12 || w == 16 || w == 32
  {
    if b.fatLength == 0 && b.fat32Length != 0 then 32 else if clusters > MSDOS_FAT12 then 16 else 12
  }

  /** The most clusters that a FAT of some bytes has entries for; the subtraction is unsigned. */
  function EntryLimit(bytes: nat, bits: nat): nat
    requires 0 < bits
  {
    U64(bytes * 8 / bits - 2)
  }

  predicate HasRoot(b: Boot, width: nat) {
    b.dirEntries != 0 || (width == 32 && b.rootCluster != 0)
  }

  /** The checker finds entries enough. */
  predicate EntriesPass(b: Boot)
    requires b.clusterSize * b.sectorSize != 0
  {
    Count(b) <= EntryLimit(FatSize(b), Width(b, Count(b)))
  }

  predicate Acceptable(b: Boot) {
    && 0 < b.sectorSize && b.clusterSize * b.sectorSize != 0 && (b.fats == 1 || b.fats == 2)
    && EntriesPass(b) && HasRoot(b, Width(b, Count(b)))
    && b.dirEntries % 16 == 0 && b.sectorSize % 512 == 0 && b.secsTrack != 0 && b.heads != 0
  }

  // ----- where words wrap around -----

  lemma ProductBelow(a: nat, b: nat, m: nat, n: nat)
    requires a <= m && b <= n
    ensures 0 <= a * b <= m * n
  {
    Times(a, m, b);
    Times(b, n, m);
  }

  /** The places in the file system keep within the 64-bit words that hold them, and the sizes of a
      cluster and of the root directory within 32 bits, for every boot sector. */
  lemma BootWords(b: Boot)
    ensures b.clusterSize * b.sectorSize < 0x8000_0000
    ensures 0 <= RoundToMultiple(b.dirEntries * 32, b.sectorSize) < 0x8000_0000
    ensures RootStart(b) < 0x1_0001_0000_0000
    ensures -0x2_0000_0000_0000 <= DataSize(b) < 0x2_0000_0000_0000
  {
    hide FatLength;
    ProductBelow(b.clusterSize, b.sectorSize, 0xff, 0xffff);
    ProductBelow(b.reserved + U32(b.fats * FatLength(b)), b.sectorSize, 0x1_0000_fffe, 0xffff);
    ProductBelow(if b.sectors != 0 then b.sectors else b.totalSect, b.sectorSize, 0xffff_ffff, 0xffff);
  }

  lemma TruncBounds(a: int, b: nat)
    requires 0 < b
    ensures var q := Arithmetic.TruncDiv(a, b);
      && (0 <= a ==> q == a / b && 0 <= q <= a) && (a < 0 ==> a <= q <= 0)
      && (q < 0 <==> a + b <= 0)
  {
    if a >= 0 {
      QuotientBounds(a, b);
    } else {
      QuotientBounds(-a, b);
    }
  }

  lemma QuotientBounds(n: nat, b: nat)
    requires 0 < b
    ensures 0 <= n / b <= n && (n / b == 0 <==> n < b)
  {
    var q, r := n / b, n % b;
    assert n == b * q + r;
    Times(1, b, q);
    if q > 0 {
      Times(1, q, b);
    }
  }

  /** The count is that of the data area, none for an area that is not there, if and only if the
      device does not end a whole cluster or more in front of it. */
  lemma CountIsReal(b: Boot)
    requires b.clusterSize * b.sectorSize != 0
    ensures var area := b.clusterSize * b.sectorSize;
      && (Count(b) == (if DataSize(b) < 0 then 0 else DataSize(b) / area) <==> 0 < DataSize(b) + area)
      && (DataSize(b) + area <= 0 ==> 0xfffe_0000_0000_0000 <= Count(b))
  {
    BootWords(b);
    hide DataSize, RootStart, U64;
    WordCount(DataSize(b), b.clusterSize * b.sectorSize);
  }

  lemma WordCount(d: int, area: nat)
    requires 0 < area && -0x2_0000_0000_0000 <= d < 0x2_0000_0000_0000
    ensures var c := U64(Arithmetic.TruncDiv(d, area));
      && (c == (if d < 0 then 0 else d / area) <==> 0 < d + area)
      && (0 <= d ==> c == d / area <= d)
      && (d + area <= 0 ==> 0xfffe_0000_0000_0000 <= c < 0x1_0000_0000_0000_0000)
  {
    hide U64, Arithmetic.TruncDiv;
    TruncBounds(d, area);
    var q := Arithmetic.TruncDiv(d, area);
    if 0 <= d {
      assert U64(q) == q;
    } else {
      assert q == 0 || U64(q) == q + 0x1_0000_0000_0000_0000;
    }
  }

  /** For every boot sector with whole 512-byte sectors: the test for entries is right when the
      FAT size is not zero in its 32-bit word. When it is, the limit wraps around and the test lets
      everything pass but a count of 2^64 - 1. */
  lemma EntryTestExactly(b: Boot)
    requires b.clusterSize * b.sectorSize != 0 && b.sectorSize % 512 == 0
    ensures var width := Width(b, Count(b));
      EntriesPass(b) <==>
        (if FatSize(b) == 0 then Count(b) != 0xffff_ffff_ffff_ffff else (Count(b) + 2) * width <= FatSize(b) * 8)
  {
    hide FatLength, DataSize, Width;
    var c, width, bytes := Count(b), Width(b, Count(b)), FatSize(b);
    BootWords(b);
    TruncBounds(DataSize(b), b.clusterSize * b.sectorSize);
    WholeFat(b);
    var q := bytes * 8 / width;
    DivUpper(bytes * 8, width);
    Fits(c + 2, width, bytes * 8);
    if 0 < bytes {
      assert 128 <= q by {
        hide *;
        ManyEntries(bytes, width);
      }
    }
  }

  lemma ManyEntries(bytes: nat, width: nat)
    requires 512 <= bytes && (width == 12 || width == 16 || width == 32)
    ensures 128 <= bytes * 8 / width
  {}

  lemma Fits(n: nat, width: nat, bits: nat)
    requires 0 < width
    ensures n <= bits / width <==> n * width <= bits
  {
    DivUpper(bits, width);
    if n <= bits / width {
      Times(n, bits / width, width);
    } else {
      Times(bits / width + 1, n, width);
    }
  }

  /** A FAT of whole sectors has no bytes or at least 512, also when its size has wrapped around. */
  lemma WholeFat(b: Boot)
    requires b.sectorSize % 512 == 0
    ensures FatSize(b) == 0 || 512 <= FatSize(b)
  {
    hide FatLength, U32;
    var k := b.sectorSize / 512;
    assert b.sectorSize == 512 * k;
    Scaled(FatLength(b), k);
    WholeWord(FatLength(b) * k);
  }

  lemma WholeWord(m: nat)
    ensures U32(512 * m) == 0 || 512 <= U32(512 * m)
  {
    assert 512 * m % 0x1_0000_0000 == 512 * (m % 0x80_0000);
  }

  lemma Scaled(a: nat, k: nat)
    ensures a * (512 * k) == 512 * (a * k) && 0 <= a * k
  {}

  /** An accepted boot sector has a FAT entry for every cluster if and only if the bytes of a FAT are
      no multiple of 2^32; a FAT of no sectors is the simplest case. */
  lemma EveryClusterHasEntry(b: Boot)
    requires Acceptable(b)
    ensures (Count(b) + 2) * Width(b, Count(b)) <= FatSize(b) * 8 <==> FatLength(b) * b.sectorSize % 0x1_0000_0000 != 0
  {
    hide FatLength, DataSize, Width, Count, EntriesPass;
    EntryTestExactly(b);
    if FatSize(b) == 0 {
      Times(2, Count(b) + 2, Width(b, Count(b)));
    }
  }

  /** A FAT of no sectors for 2847 clusters is accepted. */
  lemma NoFatAccepted()
    ensures var b := Boot(512, 1, 1, 1, 512, 2880, 0, 18, 2, 0, 0, 0);
      Acceptable(b) && FatLength(b) == 0 && Count(b) == 2847
  {}

  /** So is one of exactly 4 GiB, whose size is taken for zero. */
  lemma WholeWrapAccepted()
    ensures var b := Boot(512, 8, 32, 1, 0, 0, 0, 18, 2, 4000000000, 0x0080_0000, 2);
      Acceptable(b) && FatSize(b) == 0
  {}

  /** A FAT of more than 4 GiB has entries for all clusters, and the boot sector is refused for want
      of them. */
  lemma LongFatRefused()
    ensures var b := Boot(512, 8, 32, 1, 0, 0, 0, 18, 2, 4000000000, 0x0080_0100, 2);
      && !Acceptable(b) && !EntriesPass(b) && FatSize(b) == 0x2_0000
      && (Count(b) + 2) * Width(b, Count(b)) <= FatLength(b) * b.sectorSize * 8
  {}

  /** FATs and root directory that pass the end of the device make a huge count, which is refused. */
  lemma NoDataRefused()
    ensures var b := Boot(512, 1, 1, 1, 512, 10, 9, 18, 2, 0, 0, 0);
      !Acceptable(b) && DataSize(b) == -32 * 512 && Count(b) == 0xffff_ffff_ffff_ffe0 && Width(b, Count(b)) == 16
  {}

  /** While a FAT has fewer than 2^32 bytes, nothing wraps: the FATs follow one another behind the
      reserved sectors, and the test for entries is the true one. */
  lemma NoWrap(b: Boot)
    requires 512 <= b.sectorSize && (b.fats == 1 || b.fats == 2) && FatLength(b) * b.sectorSize < 0x1_0000_0000
    ensures FatSize(b) == FatLength(b) * b.sectorSize
    ensures RootStart(b) == b.reserved * b.sectorSize + b.fats * FatSize(b)
  {
    hide FatLength, U32;
    var length := FatLength(b);
    ShortLength(length, b.sectorSize);
    AfterFats(b.reserved, b.fats, length, b.sectorSize);
  }

  lemma ShortLength(length: nat, ss: nat)
    requires 512 <= ss && length * ss < 0x1_0000_0000
    ensures 0 <= length * ss && length < 0x80_0000
  {
    if 0x80_0000 <= length {
      ProductBelow(0x80_0000, 512, length, ss);
    }
  }

  lemma AfterFats(reserved: nat, fats: nat, length: nat, ss: nat)
    ensures (reserved + fats * length) * ss == reserved * ss + fats * (length * ss)
  {}

  // ----- agreement -----

  lemma RoundIsCdiv(n: nat, m: nat)
    requires 0 < m
    ensures RoundToMultiple(n, m) == m * Cdiv(n, m)
  {
    if n > 0 {
      var q := (n - 1) / m;
      assert n - 1 == m * q + (n - 1) % m;
      assert n + m - 1 == m * (q + 1) + (n - 1) % m;
      Arithmetic.Quotient(n + m - 1, m, q + 1, (n - 1) % m);
    } else {
      Arithmetic.Quotient(m - 1, m, 0, m - 1);
    }
  }

  lemma ScaledQuotient(a: nat, b: nat, s: nat)
    requires 0 < b && 0 < s
    ensures 0 < b * s && (a * s) / (b * s) == a / b
  {
    var q, r := a / b, a % b;
    Positive(b, s);
    Times(r + 1, b, s);
    assert a == b * q + r;
    assert a * s == (b * s) * q + r * s;
    Arithmetic.Quotient(a * s, b * s, q, r * s);
  }

  /** The checker computes the data area that the maker laid out. */
  lemma SameData(p: Params, g: Layout)
    requires Valid(p) && 0 <= p.fats * g.fatLength <= FatData(p) && ClusterSize(g.clusterSize)
    requires FatLength(BootOf(p, g)) == g.fatLength
    ensures var b := BootOf(p, g);
      && b.clusterSize * b.sectorSize != 0 && 0 <= DataSize(b)
      && DataSize(b) / (b.clusterSize * b.sectorSize) == (FatData(p) - p.fats * g.fatLength) / g.clusterSize
  {
    var ss, root, fats := p.sectorSize, Cdiv(p.rootEntries * 32, p.sectorSize), p.fats * g.fatLength;
    FatDataSmall(p);
    MadeFields(p, g);
    hide Valid, Cdiv, RoundToMultiple, BootOf, FatLength;
    RoundIsCdiv(p.rootEntries * 32, ss);
    Sectors(p.numSectors, p.reserved, fats, root, ss);
    ScaledQuotient(FatData(p) - fats, g.clusterSize, ss);
    Times(0, FatData(p) - fats, ss);
  }

  /** The fields keep their values. */
  lemma MadeFields(p: Params, g: Layout)
    requires Valid(p) && ClusterSize(g.clusterSize)
    ensures var b := BootOf(p, g);
      && b.sectorSize == p.sectorSize && b.clusterSize == g.clusterSize && b.reserved == p.reserved && b.fats == p.fats
      && b.dirEntries == p.rootEntries && (if b.sectors != 0 then b.sectors else b.totalSect) == p.numSectors
  {}

  lemma Sectors(n: int, reserved: int, fats: int, root: int, ss: nat)
    ensures n * ss - (reserved + fats) * ss - ss * root == (n - root - reserved - fats) * ss
  {}

  /** The checker derives the maker's cluster count. It derives the maker's FAT width, too, except
      in one case: a 16-bit FAT that was asked for and has fewer than 4085 clusters is taken for a
      12-bit one. It accepts the boot sector if and only if there are at most two FATs and the root
      directory fills whole 512-byte sectors. */
  lemma CheckerAgrees(p: Params, g: Layout)
    requires Valid(p) && Chosen(p, g) && 0 < g.clusters
    ensures var b := BootOf(p, g);
      && (Acceptable(b) <==> p.fats <= 2 && p.rootEntries % 16 == 0)
      && b.clusterSize * b.sectorSize != 0 && Count(b) == g.clusters
      && (Width(b, g.clusters) == g.fatBits <==> !(g.fatBits == 16 && g.clusters < FAT12_THRESHOLD))
      && (g.fatBits == 16 && g.clusters < FAT12_THRESHOLD ==> p.fatBits == 16 && Width(b, g.clusters) == 12)
  {
    hide Chosen, FatData, Valid, BootOf, FatLength, DataSize, Width, Sound, Count, EntriesPass, RootStart, FatSize;
    MadeCount(p, g);
    ChosenIsSound(p, g);
    CandidateSize(p, g);
    FatDataSmall(p);
    SoundParts(FatData(p), p.sectorSize, g.clusterSize, p.fats,
      if g.fatBits == 12 then 3 else if g.fatBits == 16 then 4 else 8, Try(g.clusters, g.fatLength));
    BootFields(p, g);
    var b := BootOf(p, g);
    EntryTestExactly(b);
  }

  /** What the checker makes of the sizes: the maker's cluster count, and a FAT with entries enough. */
  lemma MadeCount(p: Params, g: Layout)
    requires Valid(p) && Chosen(p, g) && 0 < g.clusters
    ensures var b := BootOf(p, g);
      && b.clusterSize * b.sectorSize != 0 && b.sectorSize % 512 == 0 && Count(b) == g.clusters
      && 0 < FatSize(b) && (Count(b) + 2) * Width(b, Count(b)) <= FatSize(b) * 8
  {
    hide Chosen, FatData, Valid, BootOf, FatLength, DataSize, Width, Sound, RootStart, U64;
    ChosenIsSound(p, g);
    CandidateSize(p, g);
    FatDataSmall(p);
    LengthShort(p, g);
    var b, k := BootOf(p, g), if g.fatBits == 12 then 3 else if g.fatBits == 16 then 4 else 8;
    SoundParts(FatData(p), p.sectorSize, g.clusterSize, p.fats, k, Try(g.clusters, g.fatLength));
    BootFields(p, g);
    SameData(p, g);
    BootWords(b);
    WordCount(DataSize(b), b.clusterSize * b.sectorSize);
    EnoughBits(k, g.clusters, g.fatLength * p.sectorSize, Width(b, g.clusters));
  }

  lemma EnoughBits(k: nat, c: nat, bytes: nat, bits: nat)
    requires 0 < bits <= 4 * k && k * (c + 2) <= 2 * bytes
    ensures (c + 2) * bits <= bytes * 8 && 0 < bytes
  {
    Times(bits, 4 * k, c + 2);
    Times(1, k, c + 2);
    assert 4 * k * (c + 2) == 4 * (k * (c + 2));
  }

  /** No FAT that is made has 2^32 bytes. */
  lemma LengthShort(p: Params, g: Layout)
    requires Valid(p) && Chosen(p, g) && 0 < g.clusters
    ensures 0 <= g.fatLength * p.sectorSize < 0x1_0000_0000
  {
    hide Valid, FatData, Length32, Estimate32, Try12, Try16, Sound, Accepts;
    ChosenIsSound(p, g);
    CandidateSize(p, g);
    FatDataSmall(p);
    LargeEnough(p, g);
    if g.fatBits == 32 {
      WordsFit(FatData(p), p.sectorSize, g.clusterSize, p.fats);
    } else {
      ProductBelow(g.fatLength, p.sectorSize, 0xffff, 32768);
    }
  }

  lemma LargeEnough(p: Params, g: Layout)
    requires Valid(p) && Candidate(p, g.clusterSize)
    ensures Sizes(FatData(p), p.sectorSize, g.clusterSize, p.fats) && FatData(p) <= g.clusterSize * 0x1fff_0000
  {}

  lemma SoundParts(f: nat, ss: nat, cs: nat, nr: nat, halves: nat, t: Try)
    requires 0 < cs && 1 <= nr && f < 0x1_0000_0000 && Sound(f, ss, cs, nr, halves, t)
    ensures 0 <= nr * t.fatLength <= f && 1 <= t.fatLength < 0x1_0000_0000
    ensures t.clusters == (f - nr * t.fatLength) / cs && halves * (t.clusters + 2) <= 2 * (t.fatLength * ss)
  {
    LengthInWord(nr, t.fatLength, f);
  }

  /** The fields survive their machine words. */
  lemma BootFields(p: Params, g: Layout)
    requires Valid(p) && (g.fatBits == 12 || g.fatBits == 16 || g.fatBits == 32) && 1 <= g.fatLength < 0x1_0000_0000
    requires g.fatBits != 32 ==> g.fatLength <= 0xffff
    requires g.fatBits == 32 <==> p.fatBits == 32
    requires ClusterSize(g.clusterSize)
    ensures var b := BootOf(p, g);
      && FatLength(b) == g.fatLength && 1 <= b.fats == p.fats && 0 < b.sectorSize && b.dirEntries == p.rootEntries && b.clusterSize == g.clusterSize
      && b.sectorSize == p.sectorSize && b.sectorSize % 512 == 0 && b.secsTrack != 0 && b.heads != 0
      && Width(b, g.clusters) == (if g.fatBits == 32 then 32 else if g.clusters > MSDOS_FAT12 then 16 else 12)
      && (b.dirEntries != 0 || (g.fatBits == 32 && b.rootCluster != 0))
  {}

  /** A 1440 KiB floppy for which a 16-bit FAT is asked: the checker takes it for a 12-bit one. */
  lemma FloppyMisread()
    ensures var p, g := Params(512, 2, 512, 1, 2880, 1, 1, 16, true, 18, 2), Layout(16, 2823, 12, 1);
      && Valid(p) && Chosen(p, g) && Acceptable(BootOf(p, g))
      && Width(BootOf(p, g), g.clusters) == 12
  {
    hide Accepts, AttemptAt, Acceptable, Width, BootOf;
    var p, g := Params(512, 2, 512, 1, 2880, 1, 1, 16, true, 18, 2), Layout(16, 2823, 12, 1);
    FloppyAttempt(p);
    CheckerAgrees(p, g);
  }

  lemma FloppyAttempt(p: Params)
    requires p == Params(512, 2, 512, 1, 2880, 1, 1, 16, true, 18, 2)
    ensures Valid(p) && AttemptAt(p, 1).t16 == Try(2823, 12) && Accepts(16, AttemptAt(p, 1))
  {
    hide Try12, Try32;
    assert Cdiv(512 * 32, 512) == 32 && FatData(p) == 2847;
    assert Estimate16(2847, 512, 1, 2) == 2824 && Length16(2824, 512) == 12;
    assert Recomputed(2847, 2, 12, 1) == 2823;
  }

  lemma CandidateSize(p: Params, g: Layout)
    requires Valid(p) && Chosen(p, g)
    ensures ClusterSize(g.clusterSize) && (g.fatBits == 32 <==> p.fatBits == 32) && (g.fatBits == 16 ==> p.fatBits == 0 || p.fatBits == 16)
  {
    hide Accepts, AttemptAt;
  }

  lemma FatDataSmall(p: Params)
    requires Valid(p)
    ensures 0 < p.sectorSize && 0 <= FatData(p) < 0x1_0000_0000 && 1 <= p.fats
  {}

  lemma LengthInWord(fats: nat, length: nat, f: int)
    requires 1 <= fats && fats * length <= f
    ensures length <= f
  {
    Times(1, fats, length);
  }

  /** Making a file system and reading its boot sector. */
  method MakeAndRead(p: Params) returns (made: Made, fs: DosFs, died: Death)
    requires Valid(p)
    ensures made.Made? ==> Chosen(p, made.g) && 0 < made.g.clusters && made.boot == BootOf(p, made.g)
    ensures made.Refused? ==> forall c: nat :: Candidate(p, c) ==> !Accepts(p.fatBits, AttemptAt(p, c))
    ensures made.Made? ==> (died == Alive <==> p.fats <= 2 && p.rootEntries % 16 == 0)
    ensures made.Made? && died == Alive ==> fs.clusters == made.g.clusters
    ensures made.Made? && died == Alive ==> (fs.fatBits == made.g.fatBits <==> !(made.g.fatBits == 16 && made.g.clusters < FAT12_THRESHOLD))
    ensures made.Made? && p.fatBits == 0 && died == Alive ==> fs.fatBits == made.g.fatBits
  {
    hide Valid, Chosen, Acceptable, DataSize, BootOf, Accepts, AttemptAt, Width;
    var m := new Mkdosfs(p);
    made := m.SetupTables();
    fs := new DosFs();
    died := Alive;
    if made.Made? {
      CheckerAgrees(p, made.g);
      ChosenIsSound(p, made.g);
      died := fs.ReadBoot(made.boot);
    }
  }
}
