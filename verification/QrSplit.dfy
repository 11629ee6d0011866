/** The string splitter of split.c: numeric, alphanumeric, 8-bit and Kanji runs. */
module QrSplit {
  // A pointer into the NUL-terminated string is an index; reading at the end gives the NUL.
  import opened QrSpec
  import opened QrBits
  import opened QrSegments
  import opened QrInput
  import QrCapacity

  /** The bytes before the terminating NUL. */
  predicate IsString(s: seq<Byte>) {
    forall i :: 0 <= i < |s| ==> s[i] != 0
  }

  function At(s: seq<Byte>, p: nat): Byte {
    if p < |s| then s[p] else 0
  }

  predicate IsAlnum(c: Byte) {
    0 <= AnValue(c)
  }

  datatype Kind = Nul | Of(mode: Mode)

  /** Split_identifyMode; `hint` says that the hint is Kanji. */
  function IdentifyMode(s: seq<Byte>, p: nat, hint: bool): Kind {
    var c := At(s, p);
    if c == 0 then Nul
    else if IsDigitByte(c) then Of(Num)
    else if IsAlnum(c) then Of(An)
    else if hint && At(s, p + 1) != 0 && IsKanjiPair(c, At(s, p + 1)) then Of(Kanji)
    else Of(Eight)
  }

  /** The first position from p on that holds no digit. */
  function DigitsEnd(s: seq<Byte>, p: nat): (q: nat)
    requires p <= |s|
    ensures p <= q <= |s| && !IsDigitByte(At(s, q))
    ensures forall i :: p <= i < q ==> IsDigitByte(s[i])
    decreases |s| - p
  {
    if IsDigitByte(At(s, p)) then DigitsEnd(s, p + 1) else p
  }

  /** The first position from p on that holds no alphanumeric character. */
  function AlnumEnd(s: seq<Byte>, p: nat): (q: nat)
    requires IsString(s) && p <= |s|
    ensures p <= q <= |s| && !IsAlnum(At(s, q))
    ensures forall i :: p <= i < q ==> IsAlnum(s[i])
    decreases |s| - p
  {
    if p < |s| && IsAlnum(At(s, p)) then AlnumEnd(s, p + 1) else NulNotAlnum(); p
  }

  lemma NulNotAlnum()
    ensures !IsAlnum(0)
  {}

  /** Bits of `run` bytes in a segment of their own that one further byte in another mode would
      follow, above the bits of all of them in one segment of that mode; the header of the latter
      is needed in both cases. */
  function Saved(run: nat, own: Mode, mode: Mode, version: nat): int {
    EstimatePayload(own, run) + 4 + LengthIndicator(own, version) + EstimatePayload(mode, 1) - EstimatePayload(mode, run + 1)
  }

  /** In an alphanumeric segment from `start` to p: a switch to numeric mode at p saves bits. */
  predicate SwitchInAn(s: seq<Byte>, start: nat, p: nat, version: nat)
    requires start <= p <= |s|
  {
    var q := DigitsEnd(s, p);
    var ln := LengthIndicator(Num, version);
    EstimatePayload(An, p - start) + EstimatePayload(Num, q - p) + 4 + ln + (if IsAlnum(At(s, q)) then 4 + ln else 0)
      < EstimatePayload(An, q - start)
  }

  /** Where an alphanumeric segment that begins at `start` and has reached p ends. */
  function AnEnd(s: seq<Byte>, start: nat, p: nat, version: nat): (r: nat)
    requires IsString(s) && start <= p <= |s|
    ensures p <= r <= |s|
    ensures forall i :: p <= i < r ==> IsAlnum(s[i])
    ensures !IsAlnum(At(s, r)) || (IsDigitByte(At(s, r)) && SwitchInAn(s, start, r, version))
    decreases |s| - p
  {
    NulNotAlnum();
    DigitsAreAlnum();
    if !IsAlnum(At(s, p)) then p
    else if !IsDigitByte(At(s, p)) then AnEnd(s, start, p + 1, version)
    else if SwitchInAn(s, start, p, version) then p
    else AnEnd(s, start, DigitsEnd(s, p), version)
  }

  lemma DigitsAreAlnum()
    ensures forall c: Byte :: IsDigitByte(c) ==> IsAlnum(c)
  {}

  /** In an 8-bit segment from `start` to p: a switch at p to a mode that goes on to q saves bits. */
  predicate SwitchIn8(s: seq<Byte>, start: nat, p: nat, mode: Mode, q: nat, hint: bool, version: nat)
    requires start <= p <= q
  {
    EstimatePayload(Eight, p - start) + EstimatePayload(mode, q - p) + 4 + LengthIndicator(mode, version)
        + (if IdentifyMode(s, q, hint) == Of(Eight) then 4 + LengthIndicator(Eight, version) else 0)
      < EstimatePayload(Eight, q - start)
  }

  /** Where an 8-bit segment that begins at `start` and has reached p ends. */
  function EightEnd(s: seq<Byte>, start: nat, p: nat, hint: bool, version: nat): (r: nat)
    requires IsString(s) && start <= p <= |s|
    ensures p <= r <= |s|
    decreases |s| - p
  {
    var kind := IdentifyMode(s, p, hint);
    if kind == Nul || kind == Of(Kanji) then p
    else if kind == Of(Num) then
      if SwitchIn8(s, start, p, Num, DigitsEnd(s, p), hint, version) then p
      else EightEnd(s, start, DigitsEnd(s, p), hint, version)
    else if kind == Of(An) then
      if SwitchIn8(s, start, p, An, AlnumEnd(s, p), hint, version) then p
      else EightEnd(s, start, AlnumEnd(s, p), hint, version)
    else EightEnd(s, start, p + 1, hint, version)
  }

  /** Where a run of Kanji codes ends. */
  function KanjiEnd(s: seq<Byte>, p: nat, hint: bool): (r: nat)
    requires IsString(s) && p <= |s|
    ensures p <= r <= |s| && IdentifyMode(s, r, hint) != Of(Kanji)
    ensures IsKanjiString(s[p..r])
    decreases |s| - p
  {
    if IdentifyMode(s, p, hint) == Of(Kanji) then
      var r := KanjiEnd(s, p + 2, hint);
      assert s[p..r][2..] == s[p + 2..r];
      r
    else p
  }

  // ----- the entry that each eat function makes -----

  function Taken8(s: seq<Byte>, p: nat, hint: bool, version: nat): (e: Entry)
    requires IsString(s) && p < |s|
  {
    Entry(Eight, s[p..EightEnd(s, p, p + 1, hint, version)])
  }

  /** An alphanumeric run, taken in 8-bit mode when what follows must be 8-bit and that saves bits. */
  function TakenAn(s: seq<Byte>, p: nat, hint: bool, version: nat): (e: Entry)
    requires IsString(s) && p < |s|
  {
    var q := AnEnd(s, p, p, version);
    if At(s, q) != 0 && !IsAlnum(At(s, q)) && 0 < Saved(q - p, An, Eight, version) then Taken8(s, p, hint, version)
    else Entry(An, s[p..q])
  }

  /** A run of digits, taken in the mode of what follows when that saves bits. */
  function TakenNum(s: seq<Byte>, p: nat, hint: bool, version: nat): (e: Entry)
    requires IsString(s) && p < |s|
  {
    var q := DigitsEnd(s, p);
    var kind := IdentifyMode(s, q, hint);
    if kind == Of(Eight) && 0 < Saved(q - p, Num, Eight, version) then Taken8(s, p, hint, version)
    else if kind == Of(An) && 0 < Saved(q - p, Num, An, version) then TakenAn(s, p, hint, version)
    else Entry(Num, s[p..q])
  }

  function Taken(s: seq<Byte>, p: nat, hint: bool, version: nat): (e: Entry)
    requires IsString(s) && p < |s|
  {
    match IdentifyMode(s, p, hint)
    case Of(Num) => TakenNum(s, p, hint, version)
    case Of(An) => TakenAn(s, p, hint, version)
    case Of(Kanji) => Entry(Kanji, s[p..KanjiEnd(s, p, hint)])
    case _ => Taken8(s, p, hint, version)
  }

  /** A non-empty piece of the string from p on, in a mode that suits it. */
  predicate Takes(s: seq<Byte>, p: nat, hint: bool, e: Entry) {
    && 0 < |e.data| && p + |e.data| <= |s| && e.data == s[p..p + |e.data|]
    && GoodEntry(e) && e.mode != Structure && (e.mode == Kanji ==> hint)
  }

  lemma Takes8(s: seq<Byte>, p: nat, hint: bool, version: nat)
    requires IsString(s) && p < |s|
    ensures Takes(s, p, hint, Taken8(s, p, hint, version))
  {
    hide EightEnd;
  }

  lemma TakesAn(s: seq<Byte>, p: nat, hint: bool, version: nat)
    requires IsString(s) && p < |s| && p < AnEnd(s, p, p, version)
    ensures Takes(s, p, hint, TakenAn(s, p, hint, version))
  {
    hide AnEnd, Taken8, AnValue, IdentifyMode, SwitchInAn, Saved;
    Takes8(s, p, hint, version);
  }

  /** Alphanumeric mode pays at least five bits for a byte. */
  lemma AnPays(run: nat)
    ensures EstimatePayload(An, run) + 5 <= EstimatePayload(An, run + 1)
  {}

  /** The hand-over from eatNum to eatAn: having found that the digits cost less in the
      alphanumeric segment that follows, eatAn does not break off in front of them. */
  lemma HandOver(s: seq<Byte>, p: nat, version: nat)
    requires IsString(s) && p < |s| && IsDigitByte(s[p])
    requires IsAlnum(At(s, DigitsEnd(s, p))) && 0 < Saved(DigitsEnd(s, p) - p, Num, An, version)
    ensures p < AnEnd(s, p, p, version)
  {
    hide LengthIndicator, AnValue, EstimatePayload;
    var q := DigitsEnd(s, p);
    AnPays(q - p);
    NoneInAn();
    DigitsAreAlnum();
  }

  lemma NoneInAn()
    ensures EstimatePayload(An, 0) == 0 && EstimatePayload(An, 1) == 6
  {}

  lemma TakesNum(s: seq<Byte>, p: nat, hint: bool, version: nat)
    requires IsString(s) && p < |s| && IsDigitByte(s[p])
    ensures Takes(s, p, hint, TakenNum(s, p, hint, version))
  {
    hide DigitsEnd, Taken8, TakenAn, AnValue, Saved, IsKanjiPair, AnEnd;
    Takes8(s, p, hint, version);
    var q := DigitsEnd(s, p);
    if IdentifyMode(s, q, hint) == Of(An) && 0 < Saved(q - p, Num, An, version) {
      HandOver(s, p, version);
      TakesAn(s, p, hint, version);
    }
  }

  lemma TakesKanji(s: seq<Byte>, p: nat, hint: bool)
    requires IsString(s) && p < |s| && IdentifyMode(s, p, hint) == Of(Kanji)
    ensures Takes(s, p, hint, Entry(Kanji, s[p..KanjiEnd(s, p, hint)]))
  {
    hide IsKanjiPair, AnValue;
    var r := KanjiEnd(s, p + 2, hint);
    assert r == KanjiEnd(s, p, hint);
  }

  /** Every step of the splitter makes a non-empty entry that its mode accepts. */
  lemma TakesSome(s: seq<Byte>, p: nat, hint: bool, version: nat)
    requires IsString(s) && p < |s|
    ensures Takes(s, p, hint, Taken(s, p, hint, version))
  {
    hide Takes, TakenNum, TakenAn, Taken8, KanjiEnd, IsKanjiPair, AnValue;
    match IdentifyMode(s, p, hint)
    case Of(Num) => TakesNum(s, p, hint, version);
    case Of(An) =>
      LetterTaken(s, p, version);
      TakesAn(s, p, hint, version);
    case Of(Kanji) => TakesKanji(s, p, hint);
    case _ => Takes8(s, p, hint, version);
  }

  lemma LetterTaken(s: seq<Byte>, p: nat, version: nat)
    requires IsString(s) && p < |s| && IsAlnum(s[p]) && !IsDigitByte(s[p])
    ensures p < AnEnd(s, p, p, version)
  {
    hide AnValue, SwitchInAn;
  }

  /** The entries that a string is split into. */
  function Split(s: seq<Byte>, p: nat, hint: bool, version: nat): (r: seq<Entry>)
    requires IsString(s) && p <= |s|
    decreases |s| - p
  {
    if p == |s| then []
    else
      TakesSome(s, p, hint, version);
      var e := Taken(s, p, hint, version);
      [e] + Split(s, p + |e.data|, hint, version)
  }

  /** Splitting loses nothing: the data of the entries, one after another, is the string. */
  lemma {:induction false} SplitKeepsString(s: seq<Byte>, p: nat, hint: bool, version: nat)
    requires IsString(s) && p <= |s|
    ensures DataOf(Split(s, p, hint, version)) == s[p..]
    decreases |s| - p
  {
    hide Taken;
    if p < |s| {
      TakesSome(s, p, hint, version);
      var e := Taken(s, p, hint, version);
      var more := Split(s, p + |e.data|, hint, version);
      SplitKeepsString(s, p + |e.data|, hint, version);
      assert ([e] + more)[1..] == more;
      assert s[p..] == s[p..p + |e.data|] + s[p + |e.data|..];
    }
  }

  /** Every entry passes the check for its mode, and Kanji is used only when hinted. */
  lemma {:induction false} SplitIsGood(s: seq<Byte>, p: nat, hint: bool, version: nat)
    requires IsString(s) && p <= |s|
    ensures var r := Split(s, p, hint, version);
      (p < |s| ==> r != []) && Good(r) && forall i :: 0 <= i < |r| ==> r[i].mode != Structure && (r[i].mode == Kanji ==> hint)
    decreases |s| - p
  {
    hide Taken, GoodEntry;
    if p < |s| {
      TakesSome(s, p, hint, version);
      SplitIsGood(s, p + |Taken(s, p, hint, version).data|, hint, version);
    }
  }

  // ----- the eat functions -----

  method EatNum(s: seq<Byte>, p: nat, input: QRinput, hint: bool) returns (run: nat)
    requires IsString(s) && p < |s| && IsDigitByte(s[p]) && input.Valid()
    modifies input`entries
    ensures input.Valid() && input.entries == old(input.entries) + [TakenNum(s, p, hint, input.version)]
    ensures run == |TakenNum(s, p, hint, input.version).data|
  {
    hide EstimatePayload, LengthIndicator, IsKanjiPair, AnValue, DigitsEnd, Taken8, TakenAn, GoodEntry;
    var q := p;
    while IsDigitByte(At(s, q))
      invariant input.Valid() && input.entries == old(input.entries)
      invariant p <= q <= |s| && DigitsEnd(s, q) == DigitsEnd(s, p)
      decreases |s| - q
    {
      DigitsEndStep(s, q);
      q := q + 1;
    }
    DigitsEndStep(s, q);
    TakesNum(s, p, hint, input.version);
    run := q - p;
    var mode := IdentifyMode(s, q, hint);
    if mode == Of(Eight) {
      var dif := Saved(run, Num, Eight, input.version);
      if dif > 0 {
        run := Eat8(s, p, input, hint);
        return;
      }
    }
    if mode == Of(An) {
      var dif := Saved(run, Num, An, input.version);
      if dif > 0 {
        HandOver(s, p, input.version);
        run := EatAn(s, p, input, hint);
        return;
      }
    }
    input.Append(Entry(Num, s[p..q]));
  }

  lemma DigitsEndStep(s: seq<Byte>, q: nat)
    requires q <= |s|
    ensures if IsDigitByte(At(s, q)) then q < |s| && DigitsEnd(s, q) == DigitsEnd(s, q + 1) else DigitsEnd(s, q) == q
  {}

  method EatAn(s: seq<Byte>, p: nat, input: QRinput, hint: bool) returns (run: nat)
    requires IsString(s) && p < |s| && input.Valid() && p < AnEnd(s, p, p, input.version)
    modifies input`entries
    ensures input.Valid() && input.entries == old(input.entries) + [TakenAn(s, p, hint, input.version)]
    ensures run == |TakenAn(s, p, hint, input.version).data|
  {
    hide EstimatePayload, LengthIndicator, AnValue, DigitsEnd, AnEnd, Taken8, GoodEntry;
    var i := p;
    while IsAlnum(At(s, i))
      invariant input.Valid() && input.entries == old(input.entries)
      invariant p <= i <= |s| && AnEnd(s, p, i, input.version) == AnEnd(s, p, p, input.version)
      decreases |s| - i
    {
      NulNotAlnum();
      AnEndStep(s, p, i, input.version);
      if IsDigitByte(At(s, i)) {
        var q := i;
        while IsDigitByte(At(s, q))
          invariant input.Valid() && input.entries == old(input.entries)
          invariant i <= q <= |s| && DigitsEnd(s, q) == DigitsEnd(s, i)
          decreases |s| - q
        {
          DigitsEndStep(s, q);
          q := q + 1;
        }
        DigitsEndStep(s, q);
        var ln := LengthIndicator(Num, input.version);
        var dif := EstimatePayload(An, i - p) + EstimatePayload(Num, q - i) + 4 + ln
          + (if IsAlnum(At(s, q)) then 4 + ln else 0) - EstimatePayload(An, q - p);
        if dif < 0 {
          break;
        }
        i := q;
      } else {
        i := i + 1;
      }
    }
    AnEndStep(s, p, i, input.version);
    assert i == AnEnd(s, p, p, input.version);
    TakesAn(s, p, hint, input.version);
    run := i - p;
    if At(s, i) != 0 && !IsAlnum(At(s, i)) {
      var dif := Saved(run, An, Eight, input.version);
      if dif > 0 {
        run := Eat8(s, p, input, hint);
        return;
      }
    }
    input.Append(Entry(An, s[p..i]));
  }

  lemma AnEndStep(s: seq<Byte>, start: nat, p: nat, version: nat)
    requires IsString(s) && start <= p <= |s|
    ensures !IsAlnum(At(s, p)) ==> AnEnd(s, start, p, version) == p
    ensures IsAlnum(At(s, p)) && !IsDigitByte(At(s, p)) ==> p < |s| && AnEnd(s, start, p, version) == AnEnd(s, start, p + 1, version)
    ensures IsDigitByte(At(s, p)) ==> p < DigitsEnd(s, p)
    ensures IsDigitByte(At(s, p)) ==>
      AnEnd(s, start, p, version) == if SwitchInAn(s, start, p, version) then p else AnEnd(s, start, DigitsEnd(s, p), version)
  {
    hide AnValue, SwitchInAn;
    NulNotAlnum();
    DigitsAreAlnum();
  }

  method EatKanji(s: seq<Byte>, p: nat, input: QRinput, hint: bool) returns (run: nat)
    requires IsString(s) && p < |s| && IdentifyMode(s, p, hint) == Of(Kanji) && input.Valid()
    modifies input`entries
    ensures input.Valid() && input.entries == old(input.entries) + [Entry(Kanji, s[p..KanjiEnd(s, p, hint)])]
    ensures run == KanjiEnd(s, p, hint) - p
  {
    hide IsKanjiPair, AnValue, GoodEntry;
    var i := p;
    while IdentifyMode(s, i, hint) == Of(Kanji)
      invariant input.Valid() && input.entries == old(input.entries)
      invariant p <= i <= |s| && KanjiEnd(s, i, hint) == KanjiEnd(s, p, hint)
      decreases |s| - i
    {
      i := i + 2;
    }
    TakesKanji(s, p, hint);
    run := i - p;
    input.Append(Entry(Kanji, s[p..i]));
  }

  method Eat8(s: seq<Byte>, p: nat, input: QRinput, hint: bool) returns (run: nat)
    requires IsString(s) && p < |s| && input.Valid()
    modifies input`entries
    ensures input.Valid() && input.entries == old(input.entries) + [Taken8(s, p, hint, input.version)]
    ensures run == |Taken8(s, p, hint, input.version).data|
  {
    hide EstimatePayload, LengthIndicator, AnValue, DigitsEnd, AlnumEnd, EightEnd, IdentifyMode, GoodEntry, SwitchIn8;
    var version := input.version;
    var i := p + 1;
    while At(s, i) != 0
      invariant input.Valid() && input.entries == old(input.entries)
      invariant p < i <= |s| && EightEnd(s, p, i, hint, version) == EightEnd(s, p, p + 1, hint, version)
      decreases |s| - i
    {
      EightEndStep(s, p, i, hint, version);
      var mode := IdentifyMode(s, i, hint);
      if mode == Of(Kanji) {
        break;
      }
      if mode == Of(Num) {
        var stop, q := DigitsIn8(s, p, i, hint, version);
        if stop {
          break;
        }
        i := q;
      } else if mode == Of(An) {
        var stop, q := AlnumIn8(s, p, i, hint, version);
        if stop {
          break;
        }
        i := q;
      } else {
        i := i + 1;
      }
    }
    EightEndStep(s, p, i, hint, version);
    assert i == EightEnd(s, p, p + 1, hint, version);
    Takes8(s, p, hint, version);
    run := i - p;
    input.Append(Entry(Eight, s[p..i]));
  }

  /** Digits within an 8-bit segment: stop in front of them, or go on behind them? */
  method DigitsIn8(s: seq<Byte>, p: nat, i: nat, hint: bool, version: nat) returns (stop: bool, q: nat)
    requires IsString(s) && p <= i <= |s|
    ensures q == DigitsEnd(s, i) && (stop <==> SwitchIn8(s, p, i, Num, q, hint, version))
  {
    hide EstimatePayload, LengthIndicator, IdentifyMode, DigitsEnd;
    q := i;
    while IsDigitByte(At(s, q))
      invariant i <= q <= |s| && DigitsEnd(s, q) == DigitsEnd(s, i)
      decreases |s| - q
    {
      DigitsEndStep(s, q);
      q := q + 1;
    }
    DigitsEndStep(s, q);
    var swcost := if IdentifyMode(s, q, hint) == Of(Eight) then 4 + LengthIndicator(Eight, version) else 0;
    var dif := EstimatePayload(Eight, i - p) + EstimatePayload(Num, q - i) + 4 + LengthIndicator(Num, version)
      + swcost - EstimatePayload(Eight, q - p);
    stop := dif < 0;
  }

  /** The same for alphanumeric characters. */
  method AlnumIn8(s: seq<Byte>, p: nat, i: nat, hint: bool, version: nat) returns (stop: bool, q: nat)
    requires IsString(s) && p <= i <= |s|
    ensures q == AlnumEnd(s, i) && (stop <==> SwitchIn8(s, p, i, An, q, hint, version))
  {
    hide EstimatePayload, LengthIndicator, IdentifyMode, AlnumEnd, AnValue;
    q := i;
    while IsAlnum(At(s, q))
      invariant i <= q <= |s| && AlnumEnd(s, q) == AlnumEnd(s, i)
      decreases |s| - q
    {
      AlnumEndStep(s, q);
      q := q + 1;
    }
    AlnumEndStep(s, q);
    var swcost := if IdentifyMode(s, q, hint) == Of(Eight) then 4 + LengthIndicator(Eight, version) else 0;
    var dif := EstimatePayload(Eight, i - p) + EstimatePayload(An, q - i) + 4 + LengthIndicator(An, version)
      + swcost - EstimatePayload(Eight, q - p);
    stop := dif < 0;
  }

  lemma AlnumEndStep(s: seq<Byte>, q: nat)
    requires IsString(s) && q <= |s|
    ensures if IsAlnum(At(s, q)) then q < |s| && AlnumEnd(s, q) == AlnumEnd(s, q + 1) else AlnumEnd(s, q) == q
  {
    NulNotAlnum();
  }

  lemma EightEndStep(s: seq<Byte>, start: nat, p: nat, hint: bool, version: nat)
    requires IsString(s) && start <= p <= |s|
    ensures var kind, r := IdentifyMode(s, p, hint), EightEnd(s, start, p, hint, version);
      && (kind == Nul <==> At(s, p) == 0)
      && (kind == Nul || kind == Of(Kanji) || kind == Of(Num) || kind == Of(An) || kind == Of(Eight))
      && (kind == Nul || kind == Of(Kanji) ==> r == p)
      && (kind == Of(Eight) ==> r == EightEnd(s, start, p + 1, hint, version))
    ensures IdentifyMode(s, p, hint) == Of(Num) ==>
      var q := DigitsEnd(s, p);
      p < q && EightEnd(s, start, p, hint, version) ==
        if SwitchIn8(s, start, p, Num, q, hint, version) then p else EightEnd(s, start, q, hint, version)
    ensures IdentifyMode(s, p, hint) == Of(An) ==>
      var q := AlnumEnd(s, p);
      p < q && EightEnd(s, start, p, hint, version) ==
        if SwitchIn8(s, start, p, An, q, hint, version) then p else EightEnd(s, start, q, hint, version)
  {
    hide AnValue, SwitchIn8, IsKanjiPair;
  }

  /** The choice of an eat function. */
  method EatNext(s: seq<Byte>, p: nat, input: QRinput, hint: bool) returns (length: nat)
    requires IsString(s) && p < |s| && input.Valid()
    modifies input`entries
    ensures input.Valid() && input.entries == old(input.entries) + [Taken(s, p, hint, input.version)]
    ensures length == |Taken(s, p, hint, input.version).data|
  {
    hide Taken, IdentifyMode, AnEnd, GoodEntry, IsDigitByte, KanjiEnd, TakenNum, TakenAn, Taken8;
    ModeSelects(s, p, hint, input.version);
    var mode := IdentifyMode(s, p, hint);
    if mode == Of(Num) {
      length := EatNum(s, p, input, hint);
    } else if mode == Of(An) {
      length := EatAn(s, p, input, hint);
    } else if mode == Of(Kanji) && hint {
      length := EatKanji(s, p, input, hint);
    } else {
      length := Eat8(s, p, input, hint);
    }
  }

  /** Split_splitString: always succeeds, and the entries are those of Split. */
  method SplitString(s: seq<Byte>, p: nat, input: QRinput, hint: bool) returns (ok: bool)
    requires IsString(s) && p <= |s| && input.Valid()
    modifies input`entries
    ensures ok && input.Valid() && input.entries == old(input.entries) + Split(s, p, hint, input.version)
    decreases |s| - p
  {
    hide Taken, Takes, GoodEntry;
    EndOfString(s, p);
    if At(s, p) == 0 {
      assert input.entries + [] == input.entries;
      return true;
    }
    TakesSome(s, p, hint, input.version);
    ghost var e := Taken(s, p, hint, input.version);
    TakenSize(s, p, hint, e);
    var length := EatNext(s, p, input, hint);
    if length == 0 {
      assert false;
      return true;
    }
    ok := SplitString(s, p + length, input, hint);
  }

  lemma EndOfString(s: seq<Byte>, p: nat)
    requires IsString(s) && p <= |s|
    ensures At(s, p) == 0 <==> p == |s|
  {}

  lemma TakenSize(s: seq<Byte>, p: nat, hint: bool, e: Entry)
    requires Takes(s, p, hint, e)
    ensures 0 < |e.data| && p + |e.data| <= |s|
  {
    hide GoodEntry;
  }

  /** Which eat function a position calls for. */
  lemma ModeSelects(s: seq<Byte>, p: nat, hint: bool, version: nat)
    requires IsString(s) && p < |s|
    ensures var mode, e := IdentifyMode(s, p, hint), Taken(s, p, hint, version);
      && (mode == Of(Num) ==> IsDigitByte(s[p]) && e == TakenNum(s, p, hint, version))
      && (mode == Of(An) ==> p < AnEnd(s, p, p, version) && e == TakenAn(s, p, hint, version))
      && (mode == Of(Kanji) ==> hint && e == Entry(Kanji, s[p..KanjiEnd(s, p, hint)]) && |e.data| == KanjiEnd(s, p, hint) - p)
      && (mode != Of(Num) && mode != Of(An) && mode != Of(Kanji) ==> e == Taken8(s, p, hint, version))
  {
    hide TakenNum, TakenAn, Taken8, KanjiEnd, AnEnd, IsKanjiPair, AnValue;
    if IdentifyMode(s, p, hint) == Of(An) {
      LetterTaken(s, p, version);
    }
  }

  // ----- which modes are chosen -----

  /** A string of digits is one numeric entry. */
  lemma DigitsStayNumeric(s: seq<Byte>, hint: bool, version: nat)
    requires s != [] && forall i :: 0 <= i < |s| ==> 48 <= s[i] <= 57
    ensures IsString(s) && Split(s, 0, hint, version) == [Entry(Num, s)]
  {
    hide Taken8, TakenAn, AnValue, Saved;
    DigitsAll(s, 0);
    assert s[0..|s|] == s;
    SplitOne(s, hint, version);
  }

  lemma {:induction false} DigitsAll(s: seq<Byte>, p: nat)
    requires p <= |s| && forall i :: p <= i < |s| ==> 48 <= s[i] <= 57
    ensures DigitsEnd(s, p) == |s|
    decreases |s| - p
  {
    if p < |s| {
      DigitsAll(s, p + 1);
    }
  }

  lemma SplitOne(s: seq<Byte>, hint: bool, version: nat)
    requires IsString(s) && s != []
    ensures Taken(s, 0, hint, version).data == s ==> Split(s, 0, hint, version) == [Taken(s, 0, hint, version)]
  {
    hide Taken, Takes, GoodEntry;
    TakesSome(s, 0, hint, version);
    if Taken(s, 0, hint, version).data == s {
      assert Split(s, |s|, hint, version) == [];
      assert [Taken(s, 0, hint, version)] + [] == [Taken(s, 0, hint, version)];
    }
  }

  /** Capital letters are one alphanumeric entry. */
  lemma LettersStayAlphanumeric(s: seq<Byte>, hint: bool, version: nat)
    requires s != [] && forall i :: 0 <= i < |s| ==> 65 <= s[i] <= 90
    ensures IsString(s) && Split(s, 0, hint, version) == [Entry(An, s)]
  {
    hide Taken8, Saved, AnEnd;
    LettersAll(s, 0, 0, version);
    assert s[0..|s|] == s;
    SplitOne(s, hint, version);
  }

  lemma {:induction false} LettersAll(s: seq<Byte>, start: nat, p: nat, version: nat)
    requires IsString(s) && start <= p <= |s| && forall i :: p <= i < |s| ==> 65 <= s[i] <= 90
    ensures AnEnd(s, start, p, version) == |s|
    decreases |s| - p
  {
    hide SwitchInAn;
    if p < |s| {
      LettersAll(s, start, p + 1, version);
    }
  }

  /** Without the Kanji hint bytes above 127 are one 8-bit entry. */
  lemma BytesStayBytes(s: seq<Byte>, version: nat)
    requires s != [] && forall i :: 0 <= i < |s| ==> 128 <= s[i]
    ensures IsString(s) && Split(s, 0, false, version) == [Entry(Eight, s)]
  {
    hide EightEnd;
    BytesAll(s, 0, 1, version);
    assert s[0..|s|] == s;
    SplitOne(s, false, version);
  }

  lemma {:induction false} BytesAll(s: seq<Byte>, start: nat, p: nat, version: nat)
    requires IsString(s) && start <= p <= |s| && forall i :: p <= i < |s| ==> 128 <= s[i]
    ensures EightEnd(s, start, p, false, version) == |s|
    decreases |s| - p
  {
    hide SwitchIn8, DigitsEnd, AlnumEnd;
    if p < |s| {
      BytesAll(s, start, p + 1, version);
    }
  }

  /** With the hint Kanji codes are one Kanji entry. */
  lemma KanjiStaysKanji(s: seq<Byte>, version: nat)
    requires IsString(s) && s != [] && IsKanjiString(s)
    ensures Split(s, 0, true, version) == [Entry(Kanji, s)]
  {
    hide KanjiEnd, Taken8, TakenAn, TakenNum, IsKanjiPair;
    assert s[0..] == s;
    KanjiAll(s, 0);
    assert s[0..|s|] == s;
    KanjiLead(s, 0);
    SplitOne(s, true, version);
  }

  lemma KanjiLead(s: seq<Byte>, p: nat)
    requires IsString(s) && p < |s| && IsKanjiString(s[p..])
    ensures p + 2 <= |s| && IdentifyMode(s, p, true) == Of(Kanji) && s[p..][2..] == s[p + 2..] && IsKanjiString(s[p + 2..])
  {
    assert s[p..][0] == s[p] && s[p..][1] == s[p + 1];
  }

  lemma {:induction false} KanjiAll(s: seq<Byte>, p: nat)
    requires IsString(s) && p <= |s| && IsKanjiString(s[p..])
    ensures KanjiEnd(s, p, true) == |s|
    decreases |s| - p
  {
    hide IsKanjiPair, IsKanjiString, AnValue;
    if p < |s| {
      KanjiLead(s, p);
      KanjiAll(s, p + 2);
    }
  }

  // ----- the choices save bits -----

  /** Bits of the stream of some entries. */
  function Bits(entries: seq<Entry>, version: nat): nat
    requires Good(entries)
  {
    |StreamBits(entries, version)|
  }

  /** A run in a mode that suits it and that its length field can announce. */
  predicate Announced(mode: Mode, run: seq<Byte>, version: nat) {
    (mode == Num || mode == An || mode == Eight) && GoodEntry(Entry(mode, run)) && |run| <= MaximumWords(mode, version)
  }

  /** Header and payload of a run. */
  function RunBits(mode: Mode, run: nat, version: nat): nat {
    4 + LengthIndicator(mode, version) + EstimatePayload(mode, run)
  }

  lemma BitsOfOne(a: Entry, version: nat)
    requires Announced(a.mode, a.data, version)
    ensures Bits([a], version) == RunBits(a.mode, |a.data|, version)
  {
    hide EntryBits, MaximumWords, GoodEntry, EstimatePayload, LengthIndicator;
    QrCapacity.WholeLength(a, version);
    assert StreamBits([a], version) == EntryBits(a, version) + [];
  }

  lemma BitsOfTwo(a: Entry, b: Entry, version: nat)
    requires Announced(a.mode, a.data, version) && Announced(b.mode, b.data, version)
    ensures Good([a, b]) && Bits([a, b], version) == RunBits(a.mode, |a.data|, version) + RunBits(b.mode, |b.data|, version)
  {
    hide EntryBits, MaximumWords, GoodEntry, EstimatePayload, LengthIndicator;
    QrCapacity.WholeLength(a, version);
    BitsOfOne(b, version);
    assert [a, b][1..] == [b];
  }

  lemma BitsOfThree(a: Entry, b: Entry, c: Entry, version: nat)
    requires Announced(a.mode, a.data, version) && Announced(b.mode, b.data, version) && Announced(c.mode, c.data, version)
    ensures Good([a, b, c])
    ensures Bits([a, b, c], version)
         == RunBits(a.mode, |a.data|, version) + RunBits(b.mode, |b.data|, version) + RunBits(c.mode, |c.data|, version)
  {
    hide EntryBits, MaximumWords, GoodEntry, EstimatePayload, LengthIndicator;
    QrCapacity.WholeLength(a, version);
    BitsOfTwo(b, c, version);
    assert [a, b, c][1..] == [b, c];
  }

  /** Saved compares the streams of a run with one byte in another mode behind it. */
  lemma SavedIsReal(run: seq<Byte>, c: Byte, own: Mode, mode: Mode, version: nat)
    requires Announced(own, run, version) && Announced(mode, [c], version) && Announced(mode, run + [c], version)
    ensures Good([Entry(own, run), Entry(mode, [c])]) && Good([Entry(mode, run + [c])])
    ensures Saved(|run|, own, mode, version)
         == Bits([Entry(own, run), Entry(mode, [c])], version) - Bits([Entry(mode, run + [c])], version)
  {
    hide Bits, GoodEntry, EstimatePayload, LengthIndicator, MaximumWords;
    BitsOfTwo(Entry(own, run), Entry(mode, [c]), version);
    BitsOfOne(Entry(mode, run + [c]), version);
  }

  /** A run of digits that a character of another mode follows becomes a numeric entry if and only if
      its bits and those of the character in its own segment are no more than those of all together
      in the mode of the character. */
  lemma NumericPays(s: seq<Byte>, p: nat, hint: bool, version: nat, mode: Mode)
    requires IsString(s) && p < |s| && IsDigitByte(s[p]) && (mode == An || mode == Eight)
    requires var q := DigitsEnd(s, p);
      && IdentifyMode(s, q, hint) == Of(mode) && q < |s|
      && Announced(Num, s[p..q], version) && Announced(mode, s[p..q] + [s[q]], version) && Announced(mode, [s[q]], version)
    ensures var q := DigitsEnd(s, p);
      && Good([Entry(Num, s[p..q]), Entry(mode, [s[q]])]) && Good([Entry(mode, s[p..q] + [s[q]])])
      && (Taken(s, p, hint, version) == Entry(Num, s[p..q])
          <==> Bits([Entry(Num, s[p..q]), Entry(mode, [s[q]])], version) <= Bits([Entry(mode, s[p..q] + [s[q]])], version))
  {
    hide Bits, GoodEntry, Saved, AnValue, IsKanjiPair, DigitsEnd, AnEnd, EightEnd, MaximumWords;
    var q := DigitsEnd(s, p);
    SavedIsReal(s[p..q], s[q], Num, mode, version);
  }

  /** A run of digits at the end of the string, or in front of Kanji, is numeric in any case. */
  lemma NumericAtEnd(s: seq<Byte>, p: nat, hint: bool, version: nat)
    requires IsString(s) && p < |s| && IsDigitByte(s[p])
    requires var kind := IdentifyMode(s, DigitsEnd(s, p), hint); kind == Nul || kind == Of(Kanji)
    ensures Taken(s, p, hint, version) == Entry(Num, s[p..DigitsEnd(s, p)])
  {
    hide AnValue, IsKanjiPair, DigitsEnd, Saved;
  }

  /** An alphanumeric run that a byte of no such character follows stays so if and only if that takes
      no more bits than run and byte in 8-bit mode. */
  lemma AlphanumericPays(s: seq<Byte>, p: nat, hint: bool, version: nat)
    requires IsString(s) && p < |s| && p < AnEnd(s, p, p, version) < |s| && !IsAlnum(s[AnEnd(s, p, p, version)])
    requires var q := AnEnd(s, p, p, version);
      Announced(An, s[p..q], version) && Announced(Eight, s[p..q] + [s[q]], version) && Announced(Eight, [s[q]], version)
    ensures var q := AnEnd(s, p, p, version);
      && Good([Entry(An, s[p..q]), Entry(Eight, [s[q]])]) && Good([Entry(Eight, s[p..q] + [s[q]])])
      && (TakenAn(s, p, hint, version) == Entry(An, s[p..q])
          <==> Bits([Entry(An, s[p..q]), Entry(Eight, [s[q]])], version) <= Bits([Entry(Eight, s[p..q] + [s[q]])], version))
  {
    hide Bits, GoodEntry, Saved, AnValue, IsKanjiPair, AnEnd, EightEnd, MaximumWords;
    var q := AnEnd(s, p, p, version);
    SavedIsReal(s[p..q], s[q], An, Eight, version);
  }

  /** An alphanumeric segment stops in front of digits if and only if that takes fewer bits, when no
      alphanumeric character follows the digits. */
  lemma StopInAnPays(s: seq<Byte>, start: nat, p: nat, version: nat)
    requires IsString(s) && start < p < |s| && p < DigitsEnd(s, p) && !IsAlnum(At(s, DigitsEnd(s, p)))
    requires var q := DigitsEnd(s, p);
      Announced(An, s[start..p], version) && Announced(Num, s[p..q], version) && Announced(An, s[start..q], version)
    ensures var q := DigitsEnd(s, p);
      && Good([Entry(An, s[start..p]), Entry(Num, s[p..q])]) && Good([Entry(An, s[start..q])])
      && (SwitchInAn(s, start, p, version)
          <==> Bits([Entry(An, s[start..p]), Entry(Num, s[p..q])], version) < Bits([Entry(An, s[start..q])], version))
  {
    hide Bits, GoodEntry, AnValue, DigitsEnd, EstimatePayload, LengthIndicator, MaximumWords;
    var q := DigitsEnd(s, p);
    BitsOfTwo(Entry(An, s[start..p]), Entry(Num, s[p..q]), version);
    BitsOfOne(Entry(An, s[start..q]), version);
  }

  /** When one follows, the header of the next alphanumeric segment is charged as if it were one of a
      numeric segment, which is one bit longer: the segment stops if and only if that takes fewer
      bits, by two at least when segment and digits are an even number of characters. */
  lemma StopInAnCharged(s: seq<Byte>, start: nat, p: nat, version: nat)
    requires IsString(s) && start < p < |s| && p < DigitsEnd(s, p) < |s| && IsAlnum(s[DigitsEnd(s, p)])
    requires var q := DigitsEnd(s, p);
      && Announced(An, s[start..p], version) && Announced(Num, s[p..q], version) && Announced(An, [s[q]], version)
      && Announced(An, s[start..q + 1], version)
    ensures var q := DigitsEnd(s, p);
      && Good([Entry(An, s[start..p]), Entry(Num, s[p..q]), Entry(An, [s[q]])]) && Good([Entry(An, s[start..q + 1])])
      && (SwitchInAn(s, start, p, version)
          <==> Bits([Entry(An, s[start..p]), Entry(Num, s[p..q]), Entry(An, [s[q]])], version) + (if (q - start) % 2 == 0 then 1 else 0)
               < Bits([Entry(An, s[start..q + 1])], version))
  {
    hide Bits, GoodEntry, AnValue, DigitsEnd, EstimatePayload, LengthIndicator, MaximumWords;
    var q := DigitsEnd(s, p);
    BitsOfThree(Entry(An, s[start..p]), Entry(Num, s[p..q]), Entry(An, [s[q]]), version);
    BitsOfOne(Entry(An, s[start..q + 1]), version);
    OneMoreAn(q - start, version);
  }

  lemma OneMoreAn(n: nat, version: nat)
    ensures EstimatePayload(An, n + 1) == EstimatePayload(An, n) + (if n % 2 == 0 then 6 else 5)
    ensures EstimatePayload(An, 1) == 6 && LengthIndicator(Num, version) == LengthIndicator(An, version) + 1
  {}

  /** A stop that would pay and is not made: fifteen digits between two letters at version 10 take 108
      bits in three segments, but become one of 109. */
  lemma StopMissed(s: seq<Byte>)
    requires |s| == 17 && s[0] == 65 == s[16] && forall i :: 1 <= i < 16 ==> 48 <= s[i] <= 57
    ensures IsString(s) && Split(s, 0, false, 10) == [Entry(An, s)]
    ensures Good([Entry(An, s)]) && Good([Entry(An, [65]), Entry(Num, s[1..16]), Entry(An, [65])])
    ensures Bits([Entry(An, s)], 10) == 109 && Bits([Entry(An, [65]), Entry(Num, s[1..16]), Entry(An, [65])], 10) == 108
  {
    hide Bits, Taken8, MaximumWords, DigitsEnd, AnEnd, Saved;
    MissedLengths();
    BitsOfOne(Entry(An, s), 10);
    BitsOfThree(Entry(An, [65]), Entry(Num, s[1..16]), Entry(An, [65]), 10);
    DigitsUpTo(s, 1, 16);
    MissedEnd(s);
    assert s[0..17] == s;
    SplitOne(s, false, 10);
  }

  lemma MissedLengths()
    ensures 17 <= MaximumWords(An, 10) && 15 <= MaximumWords(Num, 10)
    ensures RunBits(An, 17, 10) == 109 && RunBits(An, 1, 10) == 21 && RunBits(Num, 15, 10) == 66
  {
    Pow2Values();
    assert Pow2(11) == 2 * Pow2(10);
    assert Pow2(12) == 2 * Pow2(11);
  }

  lemma {:induction false} DigitsUpTo(s: seq<Byte>, p: nat, q: nat)
    requires p <= q <= |s| && (forall i :: p <= i < q ==> IsDigitByte(s[i])) && !IsDigitByte(At(s, q))
    ensures DigitsEnd(s, p) == q
    decreases q - p
  {
    if p < q {
      DigitsUpTo(s, p + 1, q);
    }
  }

  lemma MissedEnd(s: seq<Byte>)
    requires |s| == 17 && s[0] == 65 == s[16] && (forall i :: 1 <= i < 16 ==> 48 <= s[i] <= 57) && IsString(s)
    requires DigitsEnd(s, 1) == 16
    ensures AnEnd(s, 0, 0, 10) == 17
  {
    hide DigitsEnd, SwitchInAn, AnEnd;
    AnEndStep(s, 0, 0, 10);
    NoSwitch(s);
    AnEndStep(s, 0, 1, 10);
    AnEndStep(s, 0, 16, 10);
    AnEndStep(s, 0, 17, 10);
    NulNotAlnum();
  }

  lemma NoSwitch(s: seq<Byte>)
    requires |s| == 17 && s[16] == 65 && IsString(s) && DigitsEnd(s, 1) == 16
    ensures !SwitchInAn(s, 0, 1, 10)
  {
    hide DigitsEnd;
  }

  /** An 8-bit segment stops in front of a run in another mode if and only if that takes fewer bits. */
  lemma StopIn8Pays(s: seq<Byte>, start: nat, p: nat, mode: Mode, q: nat, hint: bool, version: nat)
    requires IsString(s) && start < p < q <= |s| && (mode == Num || mode == An) && IdentifyMode(s, q, hint) != Of(Eight)
    requires Announced(Eight, s[start..p], version) && Announced(mode, s[p..q], version) && Announced(Eight, s[start..q], version)
    ensures Good([Entry(Eight, s[start..p]), Entry(mode, s[p..q])]) && Good([Entry(Eight, s[start..q])])
    ensures SwitchIn8(s, start, p, mode, q, hint, version)
       <==> Bits([Entry(Eight, s[start..p]), Entry(mode, s[p..q])], version) < Bits([Entry(Eight, s[start..q])], version)
  {
    hide Bits, GoodEntry, AnValue, EstimatePayload, LengthIndicator, MaximumWords, IdentifyMode;
    BitsOfTwo(Entry(Eight, s[start..p]), Entry(mode, s[p..q]), version);
    BitsOfOne(Entry(Eight, s[start..q]), version);
  }

  lemma StopIn8Charged(s: seq<Byte>, start: nat, p: nat, mode: Mode, q: nat, hint: bool, version: nat)
    requires IsString(s) && start < p < q < |s| && (mode == Num || mode == An) && IdentifyMode(s, q, hint) == Of(Eight)
    requires Announced(Eight, s[start..p], version) && Announced(mode, s[p..q], version) && Announced(Eight, [s[q]], version)
    requires Announced(Eight, s[start..q + 1], version)
    ensures Good([Entry(Eight, s[start..p]), Entry(mode, s[p..q]), Entry(Eight, [s[q]])]) && Good([Entry(Eight, s[start..q + 1])])
    ensures SwitchIn8(s, start, p, mode, q, hint, version)
       <==> Bits([Entry(Eight, s[start..p]), Entry(mode, s[p..q]), Entry(Eight, [s[q]])], version) < Bits([Entry(Eight, s[start..q + 1])], version)
  {
    hide Bits, GoodEntry, AnValue, LengthIndicator, MaximumWords, IdentifyMode;
    BitsOfThree(Entry(Eight, s[start..p]), Entry(mode, s[p..q]), Entry(Eight, [s[q]]), version);
    BitsOfOne(Entry(Eight, s[start..q + 1]), version);
  }

  /** Where an 8-bit segment ends: at the end of the string, at Kanji, or where a stop pays; and it
      passes over no Kanji, and over no run that follows an 8-bit byte and for which a stop pays. */
  lemma {:induction false} EightEndExactly(s: seq<Byte>, start: nat, p: nat, hint: bool, version: nat)
    requires IsString(s) && start <= p <= |s|
    ensures var r := EightEnd(s, start, p, hint, version);
      && p <= r
      && (|| IdentifyMode(s, r, hint) == Nul || IdentifyMode(s, r, hint) == Of(Kanji)
          || (IdentifyMode(s, r, hint) == Of(Num) && SwitchIn8(s, start, r, Num, DigitsEnd(s, r), hint, version))
          || (IdentifyMode(s, r, hint) == Of(An) && SwitchIn8(s, start, r, An, AlnumEnd(s, r), hint, version)))
      && (forall i :: p <= i < r ==> IdentifyMode(s, i, hint) != Of(Kanji))
      && (forall i :: p <= i < r && IdentifyMode(s, i, hint) == Of(Num) && (i == p || IdentifyMode(s, i - 1, hint) == Of(Eight)) ==>
            !SwitchIn8(s, start, i, Num, DigitsEnd(s, i), hint, version))
      && (forall i :: p <= i < r && IdentifyMode(s, i, hint) == Of(An) && (i == p || IdentifyMode(s, i - 1, hint) == Of(Eight)) ==>
            !SwitchIn8(s, start, i, An, AlnumEnd(s, i), hint, version))
    decreases |s| - p
  {
    hide SwitchIn8, IdentifyMode, DigitsEnd, AlnumEnd, EightEnd;
    EightEndStep(s, start, p, hint, version);
    var kind := IdentifyMode(s, p, hint);
    EndOfString(s, p);
    if kind == Of(Num) {
      InDigits(s, p, hint);
      var q := DigitsEnd(s, p);
      if !SwitchIn8(s, start, p, Num, q, hint, version) {
        EightEndExactly(s, start, q, hint, version);
      }
    } else if kind == Of(An) {
      InAlnum(s, p, hint);
      var q := AlnumEnd(s, p);
      if !SwitchIn8(s, start, p, An, q, hint, version) {
        EightEndExactly(s, start, q, hint, version);
      }
    } else if kind == Of(Eight) {
      EightEndExactly(s, start, p + 1, hint, version);
    }
  }

  lemma InDigits(s: seq<Byte>, p: nat, hint: bool)
    requires p <= |s|
    ensures forall i :: p <= i < DigitsEnd(s, p) ==> IdentifyMode(s, i, hint) == Of(Num)
  {
    hide AnValue, IsKanjiPair, DigitsEnd;
  }

  lemma InAlnum(s: seq<Byte>, p: nat, hint: bool)
    requires IsString(s) && p <= |s|
    ensures forall i :: p <= i < AlnumEnd(s, p) ==> IdentifyMode(s, i, hint) == Of(Num) || IdentifyMode(s, i, hint) == Of(An)
  {
    hide AnValue, IsKanjiPair, AlnumEnd;
  }

  /** Where an alphanumeric segment ends it has passed over no digits for which a stop pays. */
  lemma {:induction false} AnEndExactly(s: seq<Byte>, start: nat, p: nat, version: nat)
    requires IsString(s) && start <= p <= |s|
    ensures var r := AnEnd(s, start, p, version);
      forall i :: p <= i < r && IsDigitByte(s[i]) && (i == p || !IsDigitByte(s[i - 1])) ==> !SwitchInAn(s, start, i, version)
    decreases |s| - p
  {
    hide SwitchInAn, AnValue, DigitsEnd, AnEnd;
    AnEndStep(s, start, p, version);
    DigitsAreAlnum();
    if IsAlnum(At(s, p)) {
      if !IsDigitByte(At(s, p)) {
        AnEndExactly(s, start, p + 1, version);
      } else if !SwitchInAn(s, start, p, version) {
        AnEndExactly(s, start, DigitsEnd(s, p), version);
      }
    }
  }

  // ----- upper case -----

  function ToUpper(c: Byte): Byte {
    if 97 <= c <= 122 then c - 32 else c
  }

  /** Kanji pairs are kept, every other letter is raised. */
  function Upper(s: seq<Byte>, p: nat, hint: bool): (r: seq<Byte>)
    requires p <= |s|
    ensures |r| == |s| - p
    decreases |s| - p
  {
    if p == |s| then []
    else if p + 1 < |s| && IdentifyMode(s, p, hint) == Of(Kanji) then [s[p], s[p + 1]] + Upper(s, p + 2, hint)
    else [ToUpper(s[p])] + Upper(s, p + 1, hint)
  }

  lemma {:induction false} UpperIsString(s: seq<Byte>, p: nat, hint: bool)
    requires IsString(s) && p <= |s|
    ensures IsString(Upper(s, p, hint))
    decreases |s| - p
  {
    hide IdentifyMode;
    if p == |s| {
    } else if p + 1 < |s| && IdentifyMode(s, p, hint) == Of(Kanji) {
      UpperIsString(s, p + 2, hint);
    } else {
      UpperIsString(s, p + 1, hint);
    }
  }

  /** Without the Kanji hint every byte is raised. */
  lemma {:induction false} UpperEverywhere(s: seq<Byte>, p: nat)
    requires p <= |s|
    ensures forall i :: 0 <= i < |s| - p ==> Upper(s, p, false)[i] == if 97 <= s[p + i] <= 122 then s[p + i] - 32 else s[p + i]
    decreases |s| - p
  {
    if p < |s| {
      UpperEverywhere(s, p + 1);
    }
  }

  /** dupAndToUpper: in place on a copy. */
  method DupAndToUpper(s: seq<Byte>, hint: bool) returns (newstr: array<Byte>)
    requires IsString(s)
    ensures fresh(newstr) && newstr[..] == Upper(s, 0, hint)
  {
    hide AnValue, IsKanjiPair, Upper, IdentifyMode;
    newstr := new Byte[|s|](i requires 0 <= i < |s| => s[i]);
    assert newstr[..] == s;
    var p := 0;
    while p < newstr.Length
      invariant 0 <= p <= |s| == newstr.Length
      invariant Raised(s, newstr[..], p, hint)
      decreases |s| - p
    {
      p := RaiseNext(s, newstr, p, hint);
    }
    UpperStep(s, p, hint);
    assert newstr[..p] + [] == newstr[..];
  }

  /** What stands in front of p has been raised, the rest is as it was. */
  ghost predicate Raised(s: seq<Byte>, now: seq<Byte>, p: nat, hint: bool) {
    p <= |s| == |now| && now[p..] == s[p..] && now[..p] + Upper(s, p, hint) == Upper(s, 0, hint)
  }

  /** The loop body of dupAndToUpper. */
  method RaiseNext(ghost s: seq<Byte>, newstr: array<Byte>, p: nat, hint: bool) returns (next: nat)
    requires IsString(s) && p < |s| && Raised(s, newstr[..], p, hint)
    modifies newstr
    ensures p < next <= |s| && Raised(s, newstr[..], next, hint)
  {
    hide AnValue, IsKanjiPair, Upper, IdentifyMode;
    SameMode(newstr[..], s, p, hint);
    UpperStep(s, p, hint);
    var mode := IdentifyMode(newstr[..], p, hint);
    ghost var done := newstr[..p];
    if mode == Of(Kanji) {
      ghost var pair := newstr[p..][..2];
      assert newstr[..p + 2] == done + pair && pair == s[p..][..2] == [s[p], s[p + 1]];
      assert newstr[p + 2..] == newstr[p..][2..] && s[p + 2..] == s[p..][2..];
      next := p + 2;
    } else {
      if 97 <= newstr[p] <= 122 {
        newstr[p] := newstr[p] - 32;
      }
      assert newstr[..p + 1] == done + [ToUpper(s[p])];
      assert newstr[p + 1..] == s[p..][1..];
      next := p + 1;
    }
  }

  lemma SameMode(a: seq<Byte>, b: seq<Byte>, p: nat, hint: bool)
    requires |a| == |b| && p < |a| && a[p..] == b[p..]
    ensures IdentifyMode(a, p, hint) == IdentifyMode(b, p, hint) && a[p] == b[p]
  {
    hide AnValue, IsKanjiPair;
    assert a[p] == a[p..][0] && b[p] == b[p..][0];
    if p + 1 < |a| {
      assert a[p + 1] == a[p..][1] && b[p + 1] == b[p..][1];
    }
  }

  lemma UpperStep(s: seq<Byte>, p: nat, hint: bool)
    requires IsString(s) && p <= |s|
    ensures p == |s| ==> Upper(s, p, hint) == []
    ensures p < |s| && IdentifyMode(s, p, hint) == Of(Kanji) ==>
      p + 2 <= |s| && Upper(s, p, hint) == [s[p], s[p + 1]] + Upper(s, p + 2, hint)
    ensures p < |s| && IdentifyMode(s, p, hint) != Of(Kanji) ==> Upper(s, p, hint) == [ToUpper(s[p])] + Upper(s, p + 1, hint)
  {
    hide AnValue, IsKanjiPair;
  }

  /** The string that is split. */
  function Wanted(s: seq<Byte>, hint: bool, caseSensitive: bool): (r: seq<Byte>)
    requires IsString(s)
    ensures IsString(r) && |r| == |s|
  {
    UpperIsString(s, 0, hint);
    if caseSensitive then s else Upper(s, 0, hint)
  }

  /** Split_splitStringToQRinput: refuses only the empty string. */
  method SplitStringToQRinput(s: seq<Byte>, input: QRinput, hint: bool, caseSensitive: bool) returns (ok: bool)
    requires IsString(s) && input.Valid()
    modifies input`entries
    ensures ok <==> s != []
    ensures input.Valid()
    ensures ok ==> input.entries == old(input.entries) + Split(Wanted(s, hint, caseSensitive), 0, hint, input.version)
    ensures !ok ==> input.entries == old(input.entries)
  {
    hide Split, Upper, GoodEntry;
    if |s| == 0 {
      return false;
    }
    if !caseSensitive {
      UpperIsString(s, 0, hint);
      var newstr := DupAndToUpper(s, hint);
      ok := SplitString(newstr[..], 0, input, hint);
    } else {
      ok := SplitString(s, 0, input, hint);
    }
  }

  // ----- from a string to bytes and back -----

  lemma {:induction false} DataOfJoin(a: seq<Entry>, b: seq<Entry>)
    ensures DataOf(a + b) == DataOf(a) + DataOf(b)
  {
    if a == [] {
      assert a + b == b;
    } else {
      assert (a + b)[1..] == a[1..] + b;
      DataOfJoin(a[1..], b);
    }
  }

  lemma {:induction false} AllChunksKeepData(entries: seq<Entry>, version: nat)
    requires Good(entries)
    ensures DataOf(AllChunks(entries, version)) == DataOf(entries)
  {
    hide GoodEntry, Chunks;
    if entries != [] {
      ChunksKeepData(entries[0], version);
      AllChunksKeepData(entries[1..], version);
      DataOfJoin(Chunks(entries[0], version), AllChunks(entries[1..], version));
    }
  }

  lemma {:induction false} ChunksModes(entries: seq<Entry>, version: nat)
    requires Good(entries) && forall i :: 0 <= i < |entries| ==> entries[i].mode != Kanji
    ensures forall i :: 0 <= i < |AllChunks(entries, version)| ==> AllChunks(entries, version)[i].mode != Kanji
  {
    hide GoodEntry, Chunks;
    if entries != [] {
      ChunksFit(entries[0], version);
      ChunksModes(entries[1..], version);
    }
  }

  /** The text that a reader of the symbol's bytes finds. */
  function TextRead(bytes: seq<Byte>, version: nat): seq<Byte> {
    match ReadStream(ByteBits(bytes), version)
    case Segments(entries) => DataOf(entries)
    case Unreadable => []
  }

  /** A string, split and packed into the bytes of a symbol: when that succeeds, reading the bytes
      gives the string back. With the Kanji hint the codes with a trailing byte below 0x40, which
      the range test lets through, are the exception. */
  method StringToBytes(s: seq<Byte>, version: nat, level: Level, hint: bool, caseSensitive: bool)
    returns (ok: bool, symbol: nat, bytes: array<nat>)
    requires IsString(s) && version <= VERSION_MAX
    ensures ok ==> s != [] && version <= symbol <= VERSION_MAX && 1 <= symbol && bytes.Length == DataLength(symbol, level)
    ensures ok ==> forall i :: 0 <= i < bytes.Length ==> bytes[i] < 256
    ensures ok && !hint ==> TextRead(bytes[..], symbol) == Wanted(s, hint, caseSensitive)
    ensures ok && hint ==>
      (TextRead(bytes[..], symbol) == Wanted(s, hint, caseSensitive) <==> AllTrailingGood(Split(Wanted(s, hint, caseSensitive), 0, hint, version)))
    ensures !ok && s != [] ==> !Converted(SplitGood(Wanted(s, hint, caseSensitive), version, hint), level, version).ok
  {
    hide Split, DataLength, ReadStream, ByteBits, AllChunks, ReadEntries, GoodEntry, Wanted, Converted, AllTrailingGood;
    var input := new QRinput(version, level);
    ok := SplitStringToQRinput(s, input, hint, caseSensitive);
    bytes := new nat[0];
    symbol := 0;
    if !ok {
      return;
    }
    ghost var entries := input.entries;
    ghost var w := Wanted(s, hint, caseSensitive);
    assert entries == Split(w, 0, hint, version);
    SplitIsGood(w, 0, hint, version);
    SplitKeepsString(w, 0, hint, version);
    ok, bytes := input.GetByteStream();
    symbol := input.version;
    if ok {
      StreamText(entries, symbol, hint);
      assert w[0..] == w;
    }
  }

  function SplitGood(s: seq<Byte>, version: nat, hint: bool): (r: seq<Entry>)
    requires IsString(s)
    ensures Good(r)
  {
    SplitIsGood(s, 0, hint, version);
    Split(s, 0, hint, version)
  }

  lemma {:induction false} DataOfEqual(a: seq<Entry>, b: seq<Entry>)
    requires |a| == |b| && forall i :: 0 <= i < |a| ==> |a[i].data| == |b[i].data|
    requires DataOf(a) == DataOf(b)
    ensures forall i :: 0 <= i < |a| ==> a[i].data == b[i].data
  {
    if a != [] {
      var x, y := a[0].data, b[0].data;
      assert DataOf(a)[..|x|] == x && DataOf(b)[..|y|] == y;
      assert DataOf(a)[|x|..] == DataOf(a[1..]) && DataOf(b)[|y|..] == DataOf(b[1..]);
      forall i | 0 <= i < |a[1..]| ensures |a[1..][i].data| == |b[1..][i].data| {
        assert a[1..][i] == a[i + 1] && b[1..][i] == b[i + 1];
      }
      DataOfEqual(a[1..], b[1..]);
      forall i | 1 <= i < |a| ensures a[i].data == b[i].data {
        assert a[i] == a[1..][i - 1] && b[i] == b[1..][i - 1];
      }
    }
  }

  lemma StreamText(entries: seq<Entry>, version: nat, hint: bool)
    requires Good(entries) && forall i :: 0 <= i < |entries| ==> entries[i].mode == Kanji ==> hint
    ensures DataOf(ReadEntries(AllChunks(entries, version))) == DataOf(entries) <==> (!hint || AllTrailingGood(entries))
  {
    hide AllChunks, GoodEntry, Canonical, TrailingBytesGood, DataOf, AllTrailingGood;
    var chunks := AllChunks(entries, version);
    AllChunksKeepData(entries, version);
    if !hint {
      ChunksModes(entries, version);
      assert ReadEntries(chunks) == chunks;
    } else {
      AllChunksTrailing(entries, version);
      ChunksText(chunks);
    }
  }

  lemma ChunksText(chunks: seq<Entry>)
    ensures DataOf(ReadEntries(chunks)) == DataOf(chunks) <==> AllTrailingGood(chunks)
  {
    hide Canonical, TrailingBytesGood, DataOf;
    var read := ReadEntries(chunks);
    forall i | 0 <= i < |chunks|
      ensures |read[i].data| == |chunks[i].data| && (read[i].data == chunks[i].data <==> TrailingGood(chunks[i]))
      ensures read[i].data == chunks[i].data ==> read[i] == chunks[i]
    {
      CanonicalIff(chunks[i].data);
    }
    if AllTrailingGood(chunks) {
      assert read == chunks;
    } else if DataOf(read) == DataOf(chunks) {
      DataOfEqual(read, chunks);
    }
  }
}
