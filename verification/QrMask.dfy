/** Masking and mask scoring of mask.c, section 8.8 of JIS X0510. */
module QrMask {
  // The code scores run lengths; the definitions here look at modules.
  import opened Arithmetic
  import opened QrSpec
  import opened QrBits

  const N1 := 3
  const N2 := 3
  const N3 := 40
  const N4 := 10

  // ----- a row or column, module by module -----

  /** Colour of a module, true for dark; outside the symbol counts as light. */
  predicate Dark(line: seq<bool>, p: int) {
    0 <= p < |line| && line[p]
  }

  /** Five modules of one colour end at p. */
  predicate FiveAlike(line: seq<bool>, p: int)
    requires p < |line|
  {
    4 <= p && line[p] == line[p - 1] == line[p - 2] == line[p - 3] == line[p - 4]
  }

  /** Feature 1: three points for the fifth module of a run and one for each further one. */
  function RunPoints(line: seq<bool>, p: nat): nat
    requires p < |line|
  {
    if !FiveAlike(line, p) then 0 else if FiveAlike(line, p - 1) then 1 else 3
  }

  predicate AllDark(line: seq<bool>, a: int, b: int) {
    forall p :: a <= p < b ==> Dark(line, p)
  }

  predicate AllLight(line: seq<bool>, a: int, b: int) {
    forall p :: a <= p < b ==> !Dark(line, p)
  }

  /** The dark and light modules 1:1:3:1:1 of scale f that begin at p. */
  predicate Pattern(line: seq<bool>, p: int, f: nat) {
    && 1 <= f && !Dark(line, p - 1)
    && AllDark(line, p, p + f) && AllLight(line, p + f, p + 2 * f) && AllDark(line, p + 2 * f, p + 5 * f)
    && AllLight(line, p + 5 * f, p + 6 * f) && AllDark(line, p + 6 * f, p + 7 * f) && !Dark(line, p + 7 * f)
  }

  /** Feature 3: such a pattern with a light area four times the scale on one side. */
  predicate Finder(line: seq<bool>, p: int, f: nat) {
    Pattern(line, p, f) && (AllLight(line, p - 4 * f, p) || AllLight(line, p + 7 * f, p + 11 * f))
  }

  ghost function FinderPoints(line: seq<bool>, p: nat): nat {
    if exists f :: Finder(line, p, f) then 40 else 0
  }

  ghost function PointsFrom(line: seq<bool>, p: nat): nat
    requires p <= |line|
    decreases |line| - p
  {
    if p == |line| then 0 else RunPoints(line, p) + FinderPoints(line, p) + PointsFrom(line, p + 1)
  }

  /** Demerit points of a row or column. */
  ghost function LinePoints(line: seq<bool>): nat {
    PointsFrom(line, 0)
  }

  // ----- run lengths -----

  /** Length of run i; a first entry of -1 stands for no light run. */
  function Len(rl: seq<int>, i: nat): int
    requires i < |rl|
  {
    if rl[i] < 0 then 0 else rl[i]
  }

  /** Where run i starts. */
  function Start(rl: seq<int>, i: nat): (s: int)
    requires i <= |rl|
    ensures 0 <= s
  {
    if i == 0 then 0 else Start(rl, i - 1) + Len(rl, i - 1)
  }

  /** Light runs stand at even and dark ones at odd positions. */
  predicate Coloured(line: seq<bool>, rl: seq<int>) {
    forall i, p :: 0 <= i < |rl| && Start(rl, i) <= p < Start(rl, i + 1) && 0 <= p < |line| ==> (line[p] <==> i % 2 == 1)
  }

  /** No run is empty, but the first one may be missing. */
  predicate RunShape(rl: seq<int>) {
    1 <= |rl| && -1 <= rl[0] && rl[0] != 0 && (rl[0] == -1 ==> 2 <= |rl|) && forall i :: 1 <= i < |rl| ==> 1 <= rl[i]
  }

  /** rl holds the runs of the line. */
  predicate IsRuns(line: seq<bool>, rl: seq<int>) {
    RunShape(rl) && Start(rl, |rl|) == |line| && Coloured(line, rl)
  }

  lemma {:induction false} StartPrefix(a: seq<int>, b: seq<int>, i: nat)
    requires i <= |a| && i <= |b| && a[..i] == b[..i]
    ensures Start(a, i) == Start(b, i)
  {
    if i > 0 {
      assert a[..i - 1] == a[..i][..i - 1] && b[..i - 1] == b[..i][..i - 1];
      assert a[i - 1] == a[..i][i - 1] && b[i - 1] == b[..i][i - 1];
      StartPrefix(a, b, i - 1);
    }
  }

  lemma {:induction false} StartMonotone(rl: seq<int>, i: nat, j: nat)
    requires i <= j <= |rl|
    ensures Start(rl, i) <= Start(rl, j)
    decreases j - i
  {
    if i < j {
      StartMonotone(rl, i, j - 1);
    }
  }

  lemma LastColour(line: seq<bool>, rl: seq<int>)
    requires IsRuns(line, rl) && line != [] && 1 <= rl[|rl| - 1]
    ensures line[|line| - 1] <==> (|rl| - 1) % 2 == 1
  {
    var n := |rl| - 1;
    assert Start(rl, n) <= |line| - 1 < Start(rl, n + 1);
  }

  /** A module of the longer line that lies in an old run keeps its colour. */
  lemma OldColour(line: seq<bool>, rl: seq<int>, i: nat, p: nat)
    requires IsRuns(line, rl) && i < |rl| && Start(rl, i) <= p < Start(rl, i + 1)
    ensures p < |line| && (line[p] <==> i % 2 == 1)
  {
    StartMonotone(rl, i + 1, |rl|);
  }

  /** One more module of the same colour. */
  lemma RunsGrow(line: seq<bool>, rl: seq<int>, b: bool)
    requires IsRuns(line, rl) && line != [] && b == line[|line| - 1] && 1 <= rl[|rl| - 1]
    ensures IsRuns(line + [b], rl[|rl| - 1 := rl[|rl| - 1] + 1])
  {
    var n := |rl|;
    var more := rl[n - 1 := rl[n - 1] + 1];
    forall i | 0 <= i < n ensures Start(more, i) == Start(rl, i) {
      assert more[..i] == rl[..i];
      StartPrefix(more, rl, i);
    }
    LastColour(line, rl);
    hide IsRuns, Coloured;
    forall i, p | 0 <= i < n && Start(more, i) <= p < Start(more, i + 1) && 0 <= p < |line + [b]|
      ensures (line + [b])[p] <==> i % 2 == 1
    {
      if i < n - 1 || p < |line| {
        OldColour(line, rl, i, p);
      }
    }
    MadeOf(line + [b], more);
  }

  lemma MadeOf(line: seq<bool>, rl: seq<int>)
    requires RunShape(rl) && Start(rl, |rl|) == |line|
    requires forall i, p :: 0 <= i < |rl| && Start(rl, i) <= p < Start(rl, i + 1) && 0 <= p < |line| ==> (line[p] <==> i % 2 == 1)
    ensures IsRuns(line, rl)
  {}

  /** One module of the other colour. */
  lemma RunsTurn(line: seq<bool>, rl: seq<int>, b: bool)
    requires IsRuns(line, rl) && line != [] && b != line[|line| - 1] && 1 <= rl[|rl| - 1]
    ensures IsRuns(line + [b], rl + [1])
  {
    var n := |rl|;
    var more := rl + [1];
    forall i | 0 <= i <= n ensures Start(more, i) == Start(rl, i) {
      assert more[..i] == rl[..i];
      StartPrefix(more, rl, i);
    }
    LastColour(line, rl);
    hide IsRuns, Coloured;
    forall i, p | 0 <= i < n + 1 && Start(more, i) <= p < Start(more, i + 1) && 0 <= p < |line + [b]|
      ensures (line + [b])[p] <==> i % 2 == 1
    {
      if i < n {
        OldColour(line, rl, i, p);
      }
    }
    MadeOf(line + [b], more);
  }

  // ----- scoring a run list -----

  /** The test of calcN1N3 at a dark run i. */
  predicate FinderRun(rl: seq<int>, i: nat)
    requires i < |rl|
  {
    && i % 2 == 1 && 3 <= i < |rl| - 2 && rl[i] % 3 == 0
    && var fact := rl[i] / 3;
       rl[i - 2] == fact && rl[i - 1] == fact && rl[i + 1] == fact && rl[i + 2] == fact
       && (i == 3 || rl[i - 3] >= 4 * fact || i + 4 >= |rl| || rl[i + 3] >= 4 * fact)
  }

  function RunDemerit(rl: seq<int>, i: nat): nat
    requires i < |rl|
  {
    if rl[i] >= 5 then N1 + (rl[i] - 5) else 0
  }

  /** Points of runs i and further ones, a finder counted at its first dark run. */
  function RunsFrom(rl: seq<int>, i: nat): nat
    requires i <= |rl|
    decreases |rl| - i
  {
    if i == |rl| then 0 else RunDemerit(rl, i) + (if i + 2 < |rl| && FinderRun(rl, i + 2) then N3 else 0) + RunsFrom(rl, i + 1)
  }

  /** The modules of a run. */
  lemma RunModules(line: seq<bool>, rl: seq<int>, i: nat)
    requires IsRuns(line, rl) && i < |rl|
    ensures 0 <= Start(rl, i) <= Start(rl, i + 1) <= |line| && Start(rl, i + 1) == Start(rl, i) + Len(rl, i)
    ensures forall p :: Start(rl, i) <= p < Start(rl, i + 1) ==> (line[p] <==> i % 2 == 1)
    ensures 1 <= i ==> 1 <= Len(rl, i) == rl[i]
    ensures i + 1 == |rl| <==> Start(rl, i + 1) == |line|
  {
    StartMonotone(rl, i + 1, |rl|);
    if i + 1 < |rl| {
      StartMonotone(rl, i + 2, |rl|);
    }
  }

  /** The module before a run has the other colour. */
  lemma BeforeRun(line: seq<bool>, rl: seq<int>, i: nat)
    requires IsRuns(line, rl) && i < |rl| && 1 <= Start(rl, i)
    ensures 1 <= i && Start(rl, i) <= |line| && (line[Start(rl, i) - 1] <==> i % 2 == 0)
  {
    hide IsRuns;
    RunModules(line, rl, i);
    RunModules(line, rl, i - 1);
  }

  /** A stretch of one colour from the start of a run to a change of colour is the run. */
  lemma Measure(line: seq<bool>, rl: seq<int>, i: nat, f: nat)
    requires IsRuns(line, rl) && 1 <= i < |rl| && 1 <= f && Start(rl, i) + f <= |line|
    requires forall p :: Start(rl, i) <= p < Start(rl, i) + f ==> (line[p] <==> i % 2 == 1)
    requires Start(rl, i) + f < |line| ==> (line[Start(rl, i) + f] <==> i % 2 == 0)
    ensures rl[i] == f && Start(rl, i + 1) == Start(rl, i) + f
    ensures Start(rl, i) + f < |line| ==> i + 1 < |rl|
  {
    hide IsRuns;
    RunModules(line, rl, i);
    var e := Start(rl, i + 1);
    if e < Start(rl, i) + f {
      FirstModule(line, rl, i + 1);
    }
  }

  lemma FirstModule(line: seq<bool>, rl: seq<int>, i: nat)
    requires IsRuns(line, rl) && 1 <= i < |rl|
    ensures Start(rl, i) < |line| && (line[Start(rl, i)] <==> i % 2 == 1)
  {
    hide IsRuns, Start;
    RunModules(line, rl, i);
  }

  /** The pattern 1:1:3:1:1 begins at a dark run if and only if the run lengths say so. */
  predicate PatternRuns(rl: seq<int>, j: nat, f: nat) {
    j + 4 < |rl| && rl[j] == f && rl[j + 1] == f && rl[j + 2] == 3 * f && rl[j + 3] == f && rl[j + 4] == f
  }

  lemma AsModules(line: seq<bool>, a: int, b: int)
    ensures AllDark(line, a, b) && a < b ==> 0 <= a && b <= |line| && forall p :: a <= p < b ==> line[p]
    ensures AllLight(line, a, b) ==> forall p :: a <= p < b && 0 <= p < |line| ==> !line[p]
  {
    if AllDark(line, a, b) && a < b {
      assert Dark(line, a) && Dark(line, b - 1);
      forall p | a <= p < b ensures line[p] {
        assert Dark(line, p);
      }
    }
    if AllLight(line, a, b) {
      forall p | a <= p < b && 0 <= p < |line| ensures !line[p] {
        assert !Dark(line, p);
      }
    }
  }

  lemma PatternToRuns(line: seq<bool>, rl: seq<int>, j: nat, f: nat)
    requires IsRuns(line, rl) && j < |rl| && j % 2 == 1
    requires Pattern(line, Start(rl, j), f)
    ensures PatternRuns(rl, j, f)
  {
    hide IsRuns, Start, AllDark, AllLight;
    var s := Start(rl, j);
    AsModules(line, s, s + f);
    AsModules(line, s + f, s + 2 * f);
    AsModules(line, s + 2 * f, s + 5 * f);
    AsModules(line, s + 5 * f, s + 6 * f);
    AsModules(line, s + 6 * f, s + 7 * f);
    Measure(line, rl, j, f);
    Measure(line, rl, j + 1, f);
    Measure(line, rl, j + 2, 3 * f);
    Measure(line, rl, j + 3, f);
    Measure(line, rl, j + 4, f);
  }

  /** A run is all of its colour. */
  lemma WholeRun(line: seq<bool>, rl: seq<int>, i: nat)
    requires IsRuns(line, rl) && 1 <= i < |rl|
    ensures Start(rl, i + 1) == Start(rl, i) + rl[i]
    ensures i % 2 == 1 ==> AllDark(line, Start(rl, i), Start(rl, i) + rl[i])
    ensures i % 2 == 0 ==> AllLight(line, Start(rl, i), Start(rl, i) + rl[i])
    ensures i % 2 == 1 ==> !Dark(line, Start(rl, i) - 1) && !Dark(line, Start(rl, i + 1))
  {
    hide IsRuns, Start;
    RunModules(line, rl, i);
    if 1 <= Start(rl, i) {
      BeforeRun(line, rl, i);
    }
    if i + 1 < |rl| {
      RunModules(line, rl, i + 1);
    }
  }

  lemma RunsToPattern(line: seq<bool>, rl: seq<int>, j: nat, f: nat)
    requires IsRuns(line, rl) && j < |rl| && j % 2 == 1 && 1 <= f
    requires PatternRuns(rl, j, f)
    ensures Pattern(line, Start(rl, j), f) && Start(rl, j + 5) == Start(rl, j) + 7 * f
  {
    hide IsRuns, Start, AllDark, AllLight, Dark;
    WholeRun(line, rl, j);
    WholeRun(line, rl, j + 1);
    WholeRun(line, rl, j + 2);
    WholeRun(line, rl, j + 3);
    WholeRun(line, rl, j + 4);
  }

  /** The light area on the left: it reaches the edge or is long enough. */
  lemma LeftArea(line: seq<bool>, rl: seq<int>, j: nat, f: nat)
    requires IsRuns(line, rl) && j < |rl| && j % 2 == 1 && 1 <= f
    ensures AllLight(line, Start(rl, j) - 4 * f, Start(rl, j)) <==> j == 1 || rl[j - 1] >= 4 * f
  {
    hide IsRuns, Start;
    var s := Start(rl, j);
    RunModules(line, rl, j - 1);
    if j == 1 {
      assert Start(rl, 0) == 0 by { StartOfAll(rl); }
    } else {
      DarkBefore(line, rl, j - 1);
      if rl[j - 1] < 4 * f {
        assert Dark(line, Start(rl, j - 1) - 1);
      }
    }
  }

  lemma StartOfAll(rl: seq<int>)
    ensures Start(rl, 0) == 0
  {}

  /** In front of a light run that is not the first there is a dark module. */
  lemma DarkBefore(line: seq<bool>, rl: seq<int>, i: nat)
    requires IsRuns(line, rl) && 2 <= i < |rl| && i % 2 == 0
    ensures 1 <= Start(rl, i) && Dark(line, Start(rl, i) - 1)
  {
    hide IsRuns;
    StartMonotone(rl, 2, i);
    RunModules(line, rl, 1);
    BeforeRun(line, rl, i);
  }

  /** The light area on the right. */
  lemma RightArea(line: seq<bool>, rl: seq<int>, k: nat, f: nat)
    requires IsRuns(line, rl) && 1 <= k <= |rl| && k % 2 == 0 && 1 <= f
    ensures AllLight(line, Start(rl, k), Start(rl, k) + 4 * f) <==> k + 1 >= |rl| || rl[k] >= 4 * f
  {
    hide IsRuns, Start;
    RunModules(line, rl, k - 1);
    if k < |rl| {
      RunModules(line, rl, k);
      if k + 1 < |rl| {
        RunModules(line, rl, k + 1);
        assert Dark(line, Start(rl, k + 1));
      }
    }
  }

  /** calcN1N3 finds exactly the patterns that are there. */
  lemma FinderExact(line: seq<bool>, rl: seq<int>, j: nat)
    requires IsRuns(line, rl) && j < |rl| && j % 2 == 1
    ensures (exists f :: Finder(line, Start(rl, j), f)) <==> j + 2 < |rl| && FinderRun(rl, j + 2)
  {
    hide IsRuns, Start, Pattern, AllLight;
    if exists f :: Finder(line, Start(rl, j), f) {
      var f :| Finder(line, Start(rl, j), f);
      PatternPositive(line, Start(rl, j), f);
      PatternToRuns(line, rl, j, f);
      RunsToPattern(line, rl, j, f);
      LeftArea(line, rl, j, f);
      RightArea(line, rl, j + 5, f);
    }
    if j + 2 < |rl| && FinderRun(rl, j + 2) {
      var f := rl[j + 2] / 3;
      RunModules(line, rl, j);
      RunsToPattern(line, rl, j, f);
      LeftArea(line, rl, j, f);
      RightArea(line, rl, j + 5, f);
      assert Finder(line, Start(rl, j), f);
    }
  }

  lemma PatternPositive(line: seq<bool>, p: int, f: nat)
    requires Pattern(line, p, f)
    ensures 1 <= f
  {}

  /** No pattern begins anywhere but at the start of a dark run. */
  lemma FinderAtStart(line: seq<bool>, p: nat, f: nat)
    requires Finder(line, p, f)
    ensures Dark(line, p) && !Dark(line, p - 1)
  {}

  /** Points of a run from module q of it on. */
  function Tail(n: nat, q: nat): nat
    requires q <= n
  {
    if n < 5 then 0 else if q <= 4 then n - 2 else n - q
  }

  /** Points of modules p and further ones of run i. */
  lemma {:induction false} InsideRun(line: seq<bool>, rl: seq<int>, i: nat, p: nat)
    requires IsRuns(line, rl) && i < |rl| && Start(rl, i) < p <= Start(rl, i + 1) <= |line|
    ensures p - Start(rl, i) <= Len(rl, i)
    ensures PointsFrom(line, p) == Tail(Len(rl, i), p - Start(rl, i)) + PointsFrom(line, Start(rl, i + 1))
    decreases Start(rl, i + 1) - p
  {
    hide IsRuns, Finder;
    RunModules(line, rl, i);
    if p < Start(rl, i + 1) {
      InsideRun(line, rl, i, p + 1);
      PointsInside(line, rl, i, p);
      NoFinderInside(line, rl, i, p);
    }
  }

  lemma NoFinderInside(line: seq<bool>, rl: seq<int>, i: nat, p: nat)
    requires IsRuns(line, rl) && i < |rl| && Start(rl, i) < p < Start(rl, i + 1) <= |line|
    ensures FinderPoints(line, p) == 0
  {
    hide IsRuns, Finder, Start;
    RunModules(line, rl, i);
    if exists f :: Finder(line, p, f) {
      var f :| Finder(line, p, f);
      FinderAtStart(line, p, f);
      assert false;
    }
  }

  lemma PointsInside(line: seq<bool>, rl: seq<int>, i: nat, p: nat)
    requires IsRuns(line, rl) && i < |rl| && Start(rl, i) <= p < Start(rl, i + 1) <= |line|
    ensures RunPoints(line, p) == var q := p - Start(rl, i); if q < 4 then 0 else if q == 4 then N1 else 1
  {
    hide IsRuns, Start;
    RunModules(line, rl, i);
    if 1 <= Start(rl, i) {
      BeforeRun(line, rl, i);
    }
  }

  /** Scoring runs is scoring modules. */
  lemma {:induction false} RunsScoreModules(line: seq<bool>, rl: seq<int>, i: nat)
    requires IsRuns(line, rl) && i <= |rl| && Start(rl, i) <= |line|
    ensures PointsFrom(line, Start(rl, i)) == RunsFrom(rl, i)
    decreases |rl| - i
  {
    hide IsRuns, FinderRun, Finder, Start;
    if i == |rl| {
      LastRun(line, rl);
    } else {
      RunModules(line, rl, i);
      RunsScoreModules(line, rl, i + 1);
      if Len(rl, i) == 0 {
        EmptyRun(rl, i);
      } else {
        var a := Start(rl, i);
        InsideRun(line, rl, i, a + 1);
        PointsInside(line, rl, i, a);
        FinderHere(line, rl, i);
        RunTotal(rl, i);
      }
    }
  }

  lemma LastRun(line: seq<bool>, rl: seq<int>)
    requires IsRuns(line, rl)
    ensures Start(rl, |rl|) == |line| && 1 <= |rl|
  {}

  lemma EmptyRun(rl: seq<int>, i: nat)
    requires i < |rl| && Len(rl, i) == 0 && (1 <= i ==> 1 <= rl[i])
    ensures i == 0 && RunDemerit(rl, i) == 0 && (i + 2 < |rl| ==> !FinderRun(rl, i + 2))
  {}

  lemma RunTotal(rl: seq<int>, i: nat)
    requires i < |rl| && 1 <= Len(rl, i)
    ensures Tail(Len(rl, i), 1) == RunDemerit(rl, i)
  {}

  lemma FinderHere(line: seq<bool>, rl: seq<int>, i: nat)
    requires IsRuns(line, rl) && i < |rl| && Start(rl, i) < Start(rl, i + 1) <= |line|
    ensures FinderPoints(line, Start(rl, i)) == if i + 2 < |rl| && FinderRun(rl, i + 2) then N3 else 0
  {
    hide IsRuns, Finder, Start;
    RunModules(line, rl, i);
    if i % 2 == 1 {
      FinderExact(line, rl, i);
    } else {
      EvenNoFinder(rl, i);
      if exists f :: Finder(line, Start(rl, i), f) {
        var f :| Finder(line, Start(rl, i), f);
        FinderAtStart(line, Start(rl, i), f);
        assert false;
      }
    }
  }

  lemma EvenNoFinder(rl: seq<int>, i: nat)
    requires i % 2 == 0
    ensures i + 2 < |rl| ==> !FinderRun(rl, i + 2)
  {}

  /** What calcN1N3 adds up to. */
  lemma RunsScoreLine(line: seq<bool>, rl: seq<int>)
    requires IsRuns(line, rl)
    ensures LinePoints(line) == RunsFrom(rl, 0)
  {
    hide IsRuns, RunsFrom, PointsFrom;
    RunsScoreModules(line, rl, 0);
  }

  /** Mask_calcN1N3. */
  method CalcN1N3(length: nat, runLength: array<int>, ghost line: seq<bool>) returns (demerit: nat)
    requires length <= runLength.Length && IsRuns(line, runLength[..length])
    ensures demerit == LinePoints(line)
  {
    hide IsRuns, RunDemerit, FinderRun, LinePoints;
    ghost var rl := runLength[..length];
    RunsScoreLine(line, rl);
    FindersTail(rl);
    demerit := 0;
    for i := 0 to length
      invariant demerit + RunsLeft(rl, i) == RunsFrom(rl, 0)
    {
      RunTests(rl, i);
      if runLength[i] >= 5 {
        demerit := demerit + N1 + (runLength[i] - 5);
      }
      if i % 2 == 1 {
        if i >= 3 && i < length - 2 && runLength[i] % 3 == 0 {
          var fact := runLength[i] / 3;
          if runLength[i - 2] == fact && runLength[i - 1] == fact && runLength[i + 1] == fact && runLength[i + 2] == fact {
            if i == 3 || runLength[i - 3] >= 4 * fact {
              demerit := demerit + N3;
            } else if i + 4 >= length || runLength[i + 3] >= 4 * fact {
              demerit := demerit + N3;
            }
          }
        }
      }
    }
  }

  lemma RunTests(rl: seq<int>, i: nat)
    requires i < |rl|
    ensures RunDemerit(rl, i) == if rl[i] >= 5 then N1 + (rl[i] - 5) else 0
    ensures var fact := rl[i] / 3;
      FinderRun(rl, i) <==> (
        && i % 2 == 1 && i >= 3 && i < |rl| - 2 && rl[i] % 3 == 0
        && rl[i - 2] == fact && rl[i - 1] == fact && rl[i + 1] == fact && rl[i + 2] == fact
        && (i == 3 || rl[i - 3] >= 4 * fact || i + 4 >= |rl| || rl[i + 3] >= 4 * fact))
  {}

  /** The points still to be given in the order of calcN1N3, which counts a finder at its middle. */
  function RunsLeft(rl: seq<int>, i: nat): nat
    requires i <= |rl|
    decreases |rl| - i
  {
    if i == |rl| then 0 else RunDemerit(rl, i) + (if FinderRun(rl, i) then N3 else 0) + RunsLeft(rl, i + 1)
  }

  lemma {:induction false} FindersShift(rl: seq<int>, i: nat)
    requires i <= |rl|
    ensures RunsLeft(rl, i) == RunsFrom(rl, i)
      + (if i < |rl| && FinderRun(rl, i) then N3 else 0) + (if i + 1 < |rl| && FinderRun(rl, i + 1) then N3 else 0)
    decreases |rl| - i
  {
    hide FinderRun, RunDemerit;
    if i < |rl| {
      FindersShift(rl, i + 1);
    }
  }

  lemma FindersTail(rl: seq<int>)
    ensures RunsLeft(rl, 0) == RunsFrom(rl, 0)
  {
    FindersShift(rl, 0);
  }

  // ----- the symbol -----

  /** A module is dark when its low bit is set. */
  predicate DarkByte(b: bv8) {
    b & 1 == 1
  }

  /** The rows of a square symbol. */
  type Rows = seq<seq<bv8>>

  predicate Square(rows: Rows) {
    1 <= |rows| && forall y :: 0 <= y < |rows| ==> |rows[y]| == |rows|
  }

  /** The frame holds the rows. */
  predicate Shows(frame: array2<bv8>, rows: Rows)
    reads frame
  {
    Square(rows) && frame.Length0 == |rows| == frame.Length1
    && forall y, x :: 0 <= y < |rows| && 0 <= x < |rows| ==> frame[y, x] == rows[y][x]
  }

  /** Row (dir 0) or column (dir 1) number k. */
  function Line(rows: Rows, dir: nat, k: nat): (r: seq<bool>)
    requires Square(rows) && k < |rows|
    ensures |r| == |rows|
  {
    seq(|rows|, i requires 0 <= i < |rows| => if dir == 0 then DarkByte(rows[k][i]) else DarkByte(rows[i][k]))
  }

  lemma ColourDiffers(a: bv8, b: bv8)
    ensures (a ^ b) & 1 != 0 <==> DarkByte(a) != DarkByte(b)
  {}

  lemma RunsBegin(line: seq<bool>, rl: seq<int>)
    requires |line| == 1 && rl == if line[0] then [-1, 1] else [1]
    ensures IsRuns(line, rl)
  {
    assert Start(rl, 1) == Len(rl, 0);
    if line[0] {
      assert Start(rl, 2) == 1;
    }
  }

  /** Mask_calcRunLength. */
  method CalcRunLength(frame: array2<bv8>, dir: nat, k: nat, runLength: array<int>, ghost rows: Rows) returns (length: nat)
    requires Shows(frame, rows) && k < |rows| < runLength.Length
    modifies runLength
    ensures length <= runLength.Length && IsRuns(Line(rows, dir, k), runLength[..length])
  {
    hide IsRuns, DarkByte;
    var width := frame.Length0;
    ghost var line := Line(rows, dir, k);
    var head: nat;
    var first := if dir == 0 then frame[k, 0] else frame[0, k];
    DarkTest(first);
    if first & 1 != 0 {
      runLength[0] := -1;
      head := 1;
    } else {
      head := 0;
    }
    runLength[head] := 1;
    assert runLength[..head + 1] == if line[0] then [-1, 1] else [1];
    RunsBegin(line[..1], runLength[..head + 1]);
    for i := 1 to width
      invariant head <= i && 1 <= runLength[head] && Shows(frame, rows)
      invariant IsRuns(line[..i], runLength[..head + 1])
    {
      var p := if dir == 0 then frame[k, i] else frame[i, k];
      var before := if dir == 0 then frame[k, i - 1] else frame[i - 1, k];
      ColourDiffers(p, before);
      head := CountModule(runLength, head, (p ^ before) & 1 != 0, line, i);
    }
    assert line[..width] == line;
    return head + 1;
  }

  /** One module more: a new run begins, or the present one grows. */
  method CountModule(runLength: array<int>, head: nat, turn: bool, ghost line: seq<bool>, ghost i: nat) returns (next: nat)
    requires 1 <= i < |line| < runLength.Length && head <= i && 1 <= runLength[head]
    requires IsRuns(line[..i], runLength[..head + 1]) && turn == (line[i] != line[i - 1])
    modifies runLength
    ensures next <= i + 1 && next < runLength.Length && 1 <= runLength[next] && IsRuns(line[..i + 1], runLength[..next + 1])
  {
    hide IsRuns;
    ghost var rl := runLength[..head + 1];
    assert line[..i + 1] == line[..i] + [line[i]];
    if turn {
      RunsTurn(line[..i], rl, line[i]);
      next := head + 1;
      runLength[next] := 1;
      assert runLength[..next + 1] == rl + [1];
    } else {
      RunsGrow(line[..i], rl, line[i]);
      next := head;
      runLength[head] := runLength[head] + 1;
      assert runLength[..head + 1] == rl[head := rl[head] + 1];
    }
  }

  lemma DarkTest(b: bv8)
    ensures b & 1 != 0 <==> DarkByte(b)
  {}

  /** Feature 2: a block of four modules of one colour. */
  predicate BlockAlike(rows: Rows, y: nat, x: nat)
    requires Square(rows) && 1 <= y < |rows| && 1 <= x < |rows|
  {
    DarkByte(rows[y][x]) == DarkByte(rows[y][x - 1]) == DarkByte(rows[y - 1][x]) == DarkByte(rows[y - 1][x - 1])
  }

  function BlocksInRow(rows: Rows, y: nat, x: nat): nat
    requires Square(rows) && 1 <= y < |rows| && 1 <= x <= |rows|
    decreases |rows| - x
  {
    if x == |rows| then 0 else (if BlockAlike(rows, y, x) then 1 else 0) + BlocksInRow(rows, y, x + 1)
  }

  /** Number of blocks whose lower row is y or below. */
  function Blocks(rows: Rows, y: nat): nat
    requires Square(rows) && 1 <= y <= |rows|
    decreases |rows| - y
  {
    if y == |rows| then 0 else BlocksInRow(rows, y, 1) + Blocks(rows, y + 1)
  }

  lemma BlockTest(a: bv8, b: bv8, c: bv8, d: bv8)
    ensures ((a & b & c & d) | ((a | b | c | d) ^ 1)) & 1 != 0 <==> DarkByte(a) == DarkByte(b) == DarkByte(c) == DarkByte(d)
  {}

  /** Mask_calcN2. */
  method CalcN2(frame: array2<bv8>, ghost rows: Rows) returns (demerit: nat)
    requires Shows(frame, rows)
    ensures demerit == 3 * Blocks(rows, 1)
  {
    hide DarkByte;
    var width := frame.Length0;
    demerit := 0;
    for y := 1 to width
      invariant demerit + N2 * Blocks(rows, y) == N2 * Blocks(rows, 1)
    {
      ghost var rest := N2 * Blocks(rows, y + 1);
      for x := 1 to width
        invariant demerit + N2 * BlocksInRow(rows, y, x) + rest == N2 * Blocks(rows, 1)
      {
        var a, b, c, d := frame[y, x], frame[y, x - 1], frame[y - 1, x], frame[y - 1, x - 1];
        var b22 := a & b & c & d;
        var w22 := a | b | c | d;
        BlockTest(a, b, c, d);
        if (b22 | (w22 ^ 1)) & 1 != 0 {
          demerit := demerit + N2;
        }
      }
    }
  }

  /** Points of lines k and further ones in a direction. */
  ghost function LinesFrom(rows: Rows, dir: nat, k: nat): nat
    requires Square(rows) && k <= |rows|
    decreases |rows| - k
  {
    if k == |rows| then 0 else LinePoints(Line(rows, dir, k)) + LinesFrom(rows, dir, k + 1)
  }

  /** Features 1 to 3 of a whole symbol, defined on its modules. */
  ghost function SymbolPoints(rows: Rows): nat
    requires Square(rows)
  {
    3 * Blocks(rows, 1) + LinesFrom(rows, 0, 0) + LinesFrom(rows, 1, 0)
  }

  /** Mask_evaluateSymbol; the buffer holds one entry more than the widest symbol has modules. */
  method EvaluateSymbol(frame: array2<bv8>, ghost rows: Rows) returns (demerit: nat)
    requires Shows(frame, rows) && |rows| <= 177
    ensures demerit == SymbolPoints(rows)
  {
    hide IsRuns, LinePoints, Blocks, DarkByte;
    var width := frame.Length0;
    var runLength := new int[178];
    demerit := CalcN2(frame, rows);
    for y := 0 to width
      invariant Shows(frame, rows)
      invariant demerit + LinesFrom(rows, 0, y) == 3 * Blocks(rows, 1) + LinesFrom(rows, 0, 0)
    {
      var length := CalcRunLength(frame, 0, y, runLength, rows);
      var d := CalcN1N3(length, runLength, Line(rows, 0, y));
      demerit := demerit + d;
    }
    for x := 0 to width
      invariant Shows(frame, rows)
      invariant demerit + LinesFrom(rows, 1, x) == SymbolPoints(rows)
    {
      var length := CalcRunLength(frame, 1, x, runLength, rows);
      var d := CalcN1N3(length, runLength, Line(rows, 1, x));
      demerit := demerit + d;
    }
  }

  // ----- masking -----

  /** Where mask pattern `mask` inverts. */
  predicate Inverts(mask: nat, x: nat, y: nat) {
    match mask
    case 0 => (x + y) % 2 == 0
    case 1 => y % 2 == 0
    case 2 => x % 3 == 0
    case 3 => (x + y) % 3 == 0
    case 4 => (y / 2 + x / 3) % 2 == 0
    case 5 => (x * y) % 2 + (x * y) % 3 == 0
    case 6 => ((x * y) % 2 + (x * y) % 3) % 2 == 0
    case _ => ((x * y) % 3 + (x + y) % 2) % 2 == 0
  }

  /** Reserved modules are left alone. */
  function Flip(b: bv8, invert: bool): bv8 {
    if b & 0x80 != 0 then b else b ^ (if invert then 1 else 0)
  }

  /** A mask applied twice is no mask, so a receiver can take it off; function patterns stay. */
  lemma FlipTwice(b: bv8, invert: bool)
    ensures Flip(Flip(b, invert), invert) == b
    ensures Flip(b, invert) & 0x80 == b & 0x80
    ensures b & 0x80 == 0 ==> (DarkByte(Flip(b, invert)) <==> (DarkByte(b) != invert))
  {}

  function MaskedRow(row: seq<bv8>, mask: nat, y: nat): (r: seq<bv8>)
    ensures |r| == |row|
  {
    seq(|row|, x requires 0 <= x < |row| => Flip(row[x], Inverts(mask, x, y)))
  }

  function Masked(rows: Rows, mask: nat): (r: Rows)
    requires Square(rows)
    ensures Square(r) && |r| == |rows|
  {
    seq(|rows|, y requires 0 <= y < |rows| => MaskedRow(rows[y], mask, y))
  }

  lemma UnmaskMasked(rows: Rows, mask: nat)
    requires Square(rows)
    ensures Masked(Masked(rows, mask), mask) == rows
  {
    hide Flip, Inverts;
    forall y, x | 0 <= y < |rows| && 0 <= x < |rows| ensures Masked(Masked(rows, mask), mask)[y][x] == rows[y][x] {
      FlipTwice(rows[y][x], Inverts(mask, x, y));
    }
    forall y | 0 <= y < |rows| ensures Masked(Masked(rows, mask), mask)[y] == rows[y] {
    }
  }

  /** Dark modules of a row from x on, and of the rows from y on. */
  function DarkInRow(row: seq<bv8>, x: nat): nat
    requires x <= |row|
    decreases |row| - x
  {
    if x == |row| then 0 else (if DarkByte(row[x]) then 1 else 0) + DarkInRow(row, x + 1)
  }

  function DarkCount(rows: Rows, y: nat): nat
    requires y <= |rows|
    decreases |rows| - y
  {
    if y == |rows| then 0 else DarkInRow(rows[y], 0) + DarkCount(rows, y + 1)
  }

  /** The MASKMAKER loops: d becomes the masked s, and b counts its dark modules. */
  method MakeMaskedFrame(s: array2<bv8>, d: array2<bv8>, mask: nat, ghost rows: Rows) returns (b: nat)
    requires Shows(s, rows) && s != d && d.Length0 == d.Length1 == |rows|
    modifies d
    ensures Shows(d, Masked(rows, mask)) && b == DarkCount(Masked(rows, mask), 0)
  {
    hide DarkByte, Flip, Inverts;
    ghost var masked := Masked(rows, mask);
    var width := s.Length0;
    b := 0;
    for y := 0 to width
      invariant forall i, x :: 0 <= i < y && 0 <= x < width ==> d[i, x] == masked[i][x]
      invariant b + DarkCount(masked, y) == DarkCount(masked, 0)
    {
      var n := MaskRow(s, d, mask, y, rows);
      b := b + n;
    }
  }

  /** The inner loop, for one row. */
  method MaskRow(s: array2<bv8>, d: array2<bv8>, mask: nat, y: nat, ghost rows: Rows) returns (b: nat)
    requires Shows(s, rows) && s != d && d.Length0 == d.Length1 == |rows| && y < |rows|
    modifies d
    ensures forall x :: 0 <= x < |rows| ==> d[y, x] == Masked(rows, mask)[y][x]
    ensures forall i, x :: 0 <= i < |rows| && 0 <= x < |rows| && i != y ==> d[i, x] == old(d[i, x])
    ensures b == DarkInRow(Masked(rows, mask)[y], 0)
  {
    hide DarkByte, Flip, Inverts;
    ghost var row := Masked(rows, mask)[y];
    b := 0;
    for x := 0 to s.Length0
      invariant forall j :: 0 <= j < x ==> d[y, j] == row[j]
      invariant forall i, j :: 0 <= i < |rows| && 0 <= j < |rows| && i != y ==> d[i, j] == old(d[i, j])
      invariant b + DarkInRow(row, x) == DarkInRow(row, 0)
    {
      d[y, x] := Flip(s[y, x], Inverts(mask, x, y));
      DarkTest(d[y, x]);
      b := b + if d[y, x] & 1 != 0 then 1 else 0;
    }
  }

  // ----- format information -----

  /** QRspec_getFormatInfo. */
  function FormatInfo(mask: nat, level: Level): nat
    requires mask < 8
  {
    (match level
     case L => [0x77c4, 0x72f3, 0x7daa, 0x789d, 0x662f, 0x6318, 0x6c41, 0x6976]
     case M => [0x5412, 0x5125, 0x5e7c, 0x5b4b, 0x45f9, 0x40ce, 0x4f97, 0x4aa0]
     case Q => [0x355f, 0x3068, 0x3f31, 0x3a06, 0x24b4, 0x2183, 0x2eda, 0x2bed]
     case H => [0x1689, 0x13be, 0x1ce7, 0x19d0, 0x0762, 0x0255, 0x0d0c, 0x083b])[mask]
  }

  datatype Spot = Spot(y: int, x: int)

  /** The two modules that hold bit b of the format information. */
  function FirstSpot(w: nat, b: nat): Spot {
    if b < 8 then Spot(8, w - 1 - b) else Spot(w - 15 + b, 8)
  }

  function SecondSpot(w: nat, b: nat): Spot {
    if b < 6 then Spot(b, 8) else if b < 8 then Spot(b + 1, 8) else if b == 8 then Spot(8, 7) else Spot(8, 14 - b)
  }

  /** The bit that a module holds, or -1. */
  function FormatBit(w: nat, y: nat, x: nat): int {
    if x == 8 && y <= 5 then y
    else if x == 8 && 7 <= y <= 8 then y - 1
    else if x == 8 && w - 7 <= y < w then y - (w - 15)
    else if y == 8 && w - 8 <= x < w then w - 1 - x
    else if y == 8 && x == 7 then 8
    else if y == 8 && x <= 5 then 14 - x
    else -1
  }

  lemma SpotsOfBit(w: nat, b: nat)
    requires 21 <= w && b < 15
    ensures FirstSpot(w, b) != SecondSpot(w, b)
    ensures 0 <= FirstSpot(w, b).x < w && 0 <= FirstSpot(w, b).y < w && 0 <= SecondSpot(w, b).x < w && 0 <= SecondSpot(w, b).y < w
    ensures forall y: nat, x: nat :: y < w && x < w ==>
      (FormatBit(w, y, x) == b <==> Spot(y, x) == FirstSpot(w, b) || Spot(y, x) == SecondSpot(w, b))
  {}

  function FormatModule(bit: bool): bv8 {
    if bit then 0x85 else 0x84
  }

  lemma FormatModuleDark(bit: bool)
    ensures DarkByte(FormatModule(bit)) <==> bit
  {}

  /** The rows after the first n bits of the format information have been written. */
  function FormattedRow(row: seq<bv8>, w: nat, format: nat, n: nat, y: nat): (r: seq<bv8>)
    ensures |r| == |row|
  {
    seq(|row|, x requires 0 <= x < |row| =>
      if 0 <= FormatBit(w, y, x) < n then FormatModule(Bit(format, FormatBit(w, y, x))) else row[x])
  }

  function Formatted(rows: Rows, format: nat, n: nat): (r: Rows)
    requires Square(rows)
    ensures Square(r) && |r| == |rows|
  {
    seq(|rows|, y requires 0 <= y < |rows| => FormattedRow(rows[y], |rows|, format, n, y))
  }

  function SetModule(rows: Rows, s: Spot, v: bv8): (r: Rows)
    requires Square(rows) && 0 <= s.y < |rows| && 0 <= s.x < |rows|
    ensures Square(r) && |r| == |rows|
  {
    rows[s.y := rows[s.y][s.x := v]]
  }

  /** Writing a bit is writing its two modules. */
  lemma FormattedStep(rows: Rows, format: nat, n: nat)
    requires Square(rows) && 21 <= |rows| && n < 15
    ensures var v, a, b := FormatModule(Bit(format, n)), FirstSpot(|rows|, n), SecondSpot(|rows|, n);
      0 <= a.y < |rows| && 0 <= a.x < |rows| && 0 <= b.y < |rows| && 0 <= b.x < |rows|
      && a != b && Formatted(rows, format, n + 1) == SetModule(SetModule(Formatted(rows, format, n), a, v), b, v)
      && Formatted(rows, format, n)[a.y][a.x] == rows[a.y][a.x] && Formatted(rows, format, n)[b.y][b.x] == rows[b.y][b.x]
  {
    hide FormatBit, FirstSpot, SecondSpot, FormatModule, Bit;
    var w := |rows|;
    SpotsOfBit(w, n);
    var v, a, b := FormatModule(Bit(format, n)), FirstSpot(w, n), SecondSpot(w, n);
    var now, next := Formatted(rows, format, n), Formatted(rows, format, n + 1);
    var set2 := SetModule(SetModule(now, a, v), b, v);
    forall y, x | 0 <= y < w && 0 <= x < w ensures next[y][x] == set2[y][x] {
      var known := FormatBit(w, y, x) == n <==> Spot(y, x) == a || Spot(y, x) == b;
    }
    forall y | 0 <= y < w ensures next[y] == set2[y] {
    }
  }

  lemma FormattedNone(rows: Rows, format: nat)
    requires Square(rows)
    ensures Formatted(rows, format, 0) == rows
  {
    hide FormatBit, FormatModule, Bit;
    forall y | 0 <= y < |rows| ensures Formatted(rows, format, 0)[y] == rows[y] {
    }
  }

  lemma {:induction false} DarkRowSet(row: seq<bv8>, k: nat, v: bv8, x: nat)
    requires k < |row| && x <= |row|
    ensures DarkInRow(row[k := v], x) ==
      DarkInRow(row, x) + (if x <= k then (if DarkByte(v) then 1 else 0) - (if DarkByte(row[k]) then 1 else 0) else 0)
    decreases |row| - x
  {
    hide DarkByte;
    if x < |row| {
      DarkRowSet(row, k, v, x + 1);
    }
  }

  /** One module more or less. */
  lemma {:induction false} DarkSet(rows: Rows, s: Spot, v: bv8, y: nat)
    requires Square(rows) && 0 <= s.y < |rows| && 0 <= s.x < |rows| && y <= |rows|
    ensures DarkCount(SetModule(rows, s, v), y) ==
      DarkCount(rows, y) + (if y <= s.y then (if DarkByte(v) then 1 else 0) - (if DarkByte(rows[s.y][s.x]) then 1 else 0) else 0)
    decreases |rows| - y
  {
    hide DarkByte, DarkInRow;
    if y < |rows| {
      DarkSet(rows, s, v, y + 1);
      if y == s.y {
        DarkRowSet(rows[y], s.x, v, 0);
      }
    }
  }

  function Half(num: nat, k: nat): nat {
    if k == 0 then num else Half(num / 2, k - 1)
  }

  lemma {:induction false} HalfStep(num: nat, k: nat)
    ensures Half(num, k) / 2 == Half(num, k + 1) && (Bit(num, k) <==> Half(num, k) % 2 == 1)
  {
    if k > 0 {
      HalfStep(num / 2, k - 1);
    }
  }

  /** The modules of the format information are light before they are written. */
  predicate FormatLight(rows: Rows)
    requires Square(rows)
  {
    forall y, x :: 0 <= y < |rows| && 0 <= x < |rows| && 0 <= FormatBit(|rows|, y, x) < 15 ==> !DarkByte(rows[y][x])
  }

  /** The two writes of one bit; the count of dark modules goes along. */
  method WriteBit(frame: array2<bv8>, a: Spot, b: Spot, v: bv8, bit: bool, ghost rows: Rows, ghost format: nat, ghost n: nat)
    requires Square(rows) && 21 <= |rows| && n < 15 && FormatLight(rows) && Shows(frame, Formatted(rows, format, n))
    requires a == FirstSpot(|rows|, n) && b == SecondSpot(|rows|, n) && bit == Bit(format, n) && v == FormatModule(bit)
    requires 0 <= a.y < |rows| && 0 <= a.x < |rows| && 0 <= b.y < |rows| && 0 <= b.x < |rows|
    modifies frame
    ensures Shows(frame, Formatted(rows, format, n + 1))
    ensures DarkCount(Formatted(rows, format, n + 1), 0) == DarkCount(Formatted(rows, format, n), 0) + if bit then 2 else 0
  {
    hide DarkByte, FirstSpot, SecondSpot, FormatModule, Bit, Formatted, FormatBit, DarkCount;
    ghost var now := Formatted(rows, format, n);
    FormattedStep(rows, format, n);
    SpotsOfBit(|rows|, n);
    FormatModuleDark(bit);
    frame[a.y, a.x] := v;
    ghost var one := SetModule(now, a, v);
    assert Shows(frame, one);
    DarkSet(now, a, v, 0);
    frame[b.y, b.x] := v;
    DarkSet(one, b, v, 0);
    assert one[b.y][b.x] == now[b.y][b.x];
  }

  /** Mask_writeFormatInformation: the result is the number of dark modules added. */
  method WriteFormatInformation(frame: array2<bv8>, mask: nat, level: Level, ghost rows: Rows) returns (blacks: nat)
    requires Shows(frame, rows) && 21 <= |rows| && mask < 8 && FormatLight(rows)
    modifies frame
    ensures Shows(frame, Formatted(rows, FormatInfo(mask, level), 15))
    ensures DarkCount(Formatted(rows, FormatInfo(mask, level), 15), 0) == DarkCount(rows, 0) + blacks
  {
    hide DarkByte, FormatInfo, Bit, Formatted, FormatBit, DarkCount, Half;
    var width := frame.Length0;
    ghost var info := FormatInfo(mask, level);
    var format := FormatInfo(mask, level);
    FormattedNone(rows, info);
    HalfNone(info);
    blacks := 0;
    for i := 0 to 8
      invariant format == Half(info, i) && Shows(frame, Formatted(rows, info, i))
      invariant DarkCount(Formatted(rows, info, i), 0) == DarkCount(rows, 0) + blacks
    {
      HalfStep(info, i);
      var v: bv8;
      if format % 2 == 1 {
        blacks := blacks + 2;
        v := 0x85;
      } else {
        v := 0x84;
      }
      var second := if i < 6 then Spot(i, 8) else Spot(i + 1, 8);
      WriteBit(frame, Spot(8, width - 1 - i), second, v, format % 2 == 1, rows, info, i);
      format := format / 2;
    }
    for i := 0 to 7
      invariant format == Half(info, 8 + i) && Shows(frame, Formatted(rows, info, 8 + i))
      invariant DarkCount(Formatted(rows, info, 8 + i), 0) == DarkCount(rows, 0) + blacks
    {
      HalfStep(info, 8 + i);
      var v: bv8;
      if format % 2 == 1 {
        blacks := blacks + 2;
        v := 0x85;
      } else {
        v := 0x84;
      }
      var second := if i == 0 then Spot(8, 7) else Spot(8, 6 - i);
      WriteBit(frame, Spot(width - 7 + i, 8), second, v, format % 2 == 1, rows, info, 8 + i);
      format := format / 2;
    }
  }

  lemma HalfNone(num: nat)
    ensures Half(num, 0) == num
  {}

  // ----- the choice -----

  /** The symbol under a mask, with its format information. */
  function Candidate(rows: Rows, mask: nat, level: Level): (r: Rows)
    requires Square(rows) && mask < 8
    ensures Square(r) && |r| == |rows|
  {
    Formatted(Masked(rows, mask), FormatInfo(mask, level), 15)
  }

  /** Feature 4: the share of dark modules in percent, rounded, and its distance from a half. */
  function RatioPoints(blacks: nat, w2: nat): nat
    requires 0 < w2
  {
    var bratio := (200 * blacks + w2) / w2 / 2;
    (if bratio >= 50 then bratio - 50 else 50 - bratio) / 5 * N4
  }

  /** All demerit points of a symbol. */
  ghost function Demerit(rows: Rows): nat
    requires Square(rows)
  {
    RatioPoints(DarkCount(rows, 0), |rows| * |rows|) + SymbolPoints(rows)
  }

  lemma MaskKeepsFormatLight(rows: Rows, mask: nat)
    requires Square(rows) && FormatLight(rows)
    requires forall y, x :: 0 <= y < |rows| && 0 <= x < |rows| && 0 <= FormatBit(|rows|, y, x) < 15 ==> rows[y][x] & 0x80 != 0
    ensures FormatLight(Masked(rows, mask))
  {
    hide FormatBit, Inverts, DarkByte;
  }

  lemma {:induction false} PointsBound(line: seq<bool>, p: nat)
    requires p <= |line|
    ensures PointsFrom(line, p) <= (N1 + N3) * (|line| - p)
    decreases |line| - p
  {
    hide Finder, FiveAlike;
    if p < |line| {
      PointsBound(line, p + 1);
    }
  }

  lemma {:induction false} LinesBound(rows: Rows, dir: nat, k: nat)
    requires Square(rows) && k <= |rows| <= 177
    ensures LinesFrom(rows, dir, k) <= 177 * (N1 + N3) * (|rows| - k)
    decreases |rows| - k
  {
    hide PointsFrom, Line;
    if k < |rows| {
      PointsBound(Line(rows, dir, k), 0);
      LinesBound(rows, dir, k + 1);
    }
  }

  lemma {:induction false} BlocksInRowBound(rows: Rows, y: nat, x: nat)
    requires Square(rows) && 1 <= y < |rows| && 1 <= x <= |rows|
    ensures BlocksInRow(rows, y, x) <= |rows| - x
    decreases |rows| - x
  {
    hide BlockAlike;
    if x < |rows| {
      BlocksInRowBound(rows, y, x + 1);
    }
  }

  lemma {:induction false} BlocksBound(rows: Rows, y: nat)
    requires Square(rows) && 1 <= y <= |rows| <= 177
    ensures Blocks(rows, y) <= 177 * (|rows| - y)
    decreases |rows| - y
  {
    hide BlocksInRow;
    if y < |rows| {
      BlocksInRowBound(rows, y, 1);
      BlocksBound(rows, y + 1);
    }
  }

  lemma {:induction false} DarkInRowBound(row: seq<bv8>, x: nat)
    requires x <= |row|
    ensures DarkInRow(row, x) <= |row| - x
    decreases |row| - x
  {
    if x < |row| {
      DarkInRowBound(row, x + 1);
    }
  }

  lemma {:induction false} DarkBound(rows: Rows, y: nat)
    requires Square(rows) && y <= |rows|
    ensures DarkCount(rows, y) <= (|rows| - y) * |rows|
    decreases |rows| - y
  {
    hide DarkInRow;
    if y < |rows| {
      DarkInRowBound(rows[y], 0);
      DarkBound(rows, y + 1);
      assert (|rows| - y) * |rows| == |rows| + (|rows| - y - 1) * |rows|;
    }
  }

  /** With r the share in percent, rounded to the nearest, ten points for every five away from 50. */
  lemma RatioMeans(blacks: nat, w2: nat, r: nat)
    requires 0 < w2 && w2 * (2 * r) <= 200 * blacks + w2 < w2 * (2 * r) + 2 * w2
    ensures RatioPoints(blacks, w2) == (if 50 <= r then r - 50 else 50 - r) / 5 * 10
  {
    var a := 200 * blacks + w2;
    var rest := a - w2 * (2 * r);
    MulMonotone(w2, 2 * r + 1, 2 * r + 1);
    if rest < w2 {
      Quotient(a, w2, 2 * r, rest);
    } else {
      Quotient(a, w2, 2 * r + 1, rest - w2);
    }
  }

  lemma RatioBound(blacks: nat, w2: nat)
    requires 0 < w2 && blacks <= w2
    ensures RatioPoints(blacks, w2) <= 100
  {
    var a := 200 * blacks + w2;
    var q := a / w2;
    assert a == w2 * q + a % w2;
    if 202 <= q {
      MulMonotone(w2, 202, q);
    }
  }

  /** The points stay far below the value that the search starts from. */
  lemma DemeritBound(rows: Rows)
    requires Square(rows) && |rows| <= 177
    ensures Demerit(rows) < INT_MAX
  {
    hide LinesFrom, Blocks, DarkCount, RatioPoints;
    LinesBound(rows, 0, 0);
    LinesBound(rows, 1, 0);
    BlocksBound(rows, 1);
    DarkBound(rows, 0);
    RatioBound(DarkCount(rows, 0), |rows| * |rows|);
  }

  const INT_MAX := 0x7fff_ffff

  /** One candidate and its points. */
  method TryMask(frame: array2<bv8>, mask: array2<bv8>, i: nat, level: Level, ghost rows: Rows) returns (demerit: nat)
    requires Shows(frame, rows) && 21 <= |rows| <= 177 && FormatLight(rows) && i < 8
    requires forall y, x :: 0 <= y < |rows| && 0 <= x < |rows| && 0 <= FormatBit(|rows|, y, x) < 15 ==> rows[y][x] & 0x80 != 0
    requires frame != mask && mask.Length0 == mask.Length1 == |rows|
    modifies mask
    ensures Shows(mask, Candidate(rows, i, level)) && demerit == Demerit(Candidate(rows, i, level)) < INT_MAX
  {
    hide FormatLight, FormatInfo, Formatted, Masked, SymbolPoints, FormatBit, DarkCount;
    var w2 := frame.Length0 * frame.Length0;
    MaskKeepsFormatLight(rows, i);
    var blacks := MakeMaskedFrame(frame, mask, i, rows);
    var more := WriteFormatInformation(mask, i, level, Masked(rows, i));
    ghost var candidate := Candidate(rows, i, level);
    demerit := RatioPoints(blacks + more, w2);
    var points := EvaluateSymbol(mask, candidate);
    demerit := demerit + points;
    assert demerit == Demerit(candidate);
    DemeritBound(candidate);
  }

  /** Mask_mask: the candidate with the fewest points, the first of several. */
  method Mask(frame: array2<bv8>, level: Level, ghost rows: Rows) returns (best: array2<bv8>, ghost k: nat)
    requires Shows(frame, rows) && 21 <= |rows| <= 177 && FormatLight(rows)
    requires forall y, x :: 0 <= y < |rows| && 0 <= x < |rows| && 0 <= FormatBit(|rows|, y, x) < 15 ==> rows[y][x] & 0x80 != 0
    ensures k < 8 && fresh(best) && Shows(best, Candidate(rows, k, level))
    ensures forall i :: 0 <= i < 8 ==> Demerit(Candidate(rows, k, level)) <= Demerit(Candidate(rows, i, level))
    ensures forall i :: 0 <= i < k ==> Demerit(Candidate(rows, k, level)) < Demerit(Candidate(rows, i, level))
  {
    hide FormatLight, Candidate, Demerit, FormatBit;
    var width := frame.Length0;
    var minDemerit := INT_MAX;
    var mask := new bv8[width, width];
    best := frame;
    k := 0;
    for i := 0 to 8
      invariant fresh(mask) && mask.Length0 == width == mask.Length1 && best != mask
      invariant i > 0 ==> fresh(best)
      invariant Shows(frame, rows)
      invariant i == 0 ==> minDemerit == INT_MAX
      invariant i > 0 ==> k < i && Shows(best, Candidate(rows, k, level)) && minDemerit == Demerit(Candidate(rows, k, level))
      invariant i > 0 ==> forall j :: 0 <= j < i ==> minDemerit <= Demerit(Candidate(rows, j, level))
      invariant i > 0 ==> forall j :: 0 <= j < k ==> minDemerit < Demerit(Candidate(rows, j, level))
    {
      var demerit := TryMask(frame, mask, i, level, rows);
      if demerit < minDemerit {
        minDemerit := demerit;
        best := mask;
        k := i;
        mask := new bv8[width, width];
      }
    }
  }

  /** Mask_makeMask: the candidate that the caller asks for. */
  method MakeMask(frame: array2<bv8>, mask: int, level: Level, ghost rows: Rows) returns (masked: array2?<bv8>)
    requires Shows(frame, rows) && 21 <= |rows| && FormatLight(rows)
    requires forall y, x :: 0 <= y < |rows| && 0 <= x < |rows| && 0 <= FormatBit(|rows|, y, x) < 15 ==> rows[y][x] & 0x80 != 0
    ensures masked == null <==> mask < 0 || 8 <= mask
    ensures masked != null ==> fresh(masked) && Shows(masked, Candidate(rows, mask, level))
  {
    hide FormatLight, FormatInfo, Formatted, Masked, FormatBit, DarkCount;
    if mask < 0 || mask >= 8 {
      return null;
    }
    masked := new bv8[frame.Length0, frame.Length0];
    MaskKeepsFormatLight(rows, mask);
    var blacks := MakeMaskedFrame(frame, masked, mask, rows);
    blacks := WriteFormatInformation(masked, mask, level, Masked(rows, mask));
  }
}
