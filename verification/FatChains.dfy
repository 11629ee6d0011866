/** Cluster chains in an in-memory file allocation table, as fat.c of dosfsck sees them: marks,
    links, orphans, and the counting argument that leftover orphans form pure cycles. */
module FatChains {
  import opened Sets

  /** The marks of a FAT format: extd is the all-ones entry with its low four bits clear. */
  datatype Format = Format(extd: nat, atari: bool) {
    function MinBad(): nat { if atari then extd else extd + 7 }
    function MaxBad(): nat { extd + 7 }
    function EofMark(): nat { if atari then extd + 15 else extd + 8 }
    predicate IsBad(v: nat) { MinBad() <= v <= MaxBad() }
    predicate IsEof(v: nat) { extd + 8 <= v }
  }

  /** Marks of the three widths, and those of Atari disks. */
  lemma Marks(bits: nat, extd: nat, v: nat)
    requires (bits == 12 && extd == 0xff0) || (bits == 16 && extd == 0xfff0) || (bits == 28 && extd == 0xfff_fff0)
    ensures var f := Format(extd, false); var g := Format(extd, true);
      && (f.IsBad(v) <==> v == match bits case 12 => 0xff7 case 16 => 0xfff7 case _ => 0xfff_fff7)
      && (f.IsEof(v) <==> g.IsEof(v)) && (f.IsEof(v) <==> v >= match bits case 12 => 0xff8 case 16 => 0xfff8 case _ => 0xfff_fff8)
      && (g.IsBad(v) <==> extd <= v <= extd + 7)
      && f.EofMark() == (match bits case 12 => 0xff8 case 16 => 0xfff8 case _ => 0xfff_fff8)
      && g.EofMark() == (match bits case 12 => 0xfff case 16 => 0xffff case _ => 0xfff_ffff)
      && f.IsEof(f.EofMark()) && g.IsEof(g.EofMark())
  {}

  /** Who a cluster belongs to: no file, the stack dummy of reclaim_file, or a file. */
  datatype Owner = Nobody | Dummy | File(id: nat)

  predicate IsCluster(n: nat, i: int) {
    2 <= i < n
  }

  /** An entry is free, a link to a cluster, bad, or end-of-file. */
  predicate GoodEntry(f: Format, n: nat, v: nat) {
    v == 0 || IsCluster(n, v) || f.IsBad(v) || f.IsEof(v)
  }

  predicate GoodTable(f: Format, value: seq<nat>) {
    |value| <= f.MinBad() && forall i :: 2 <= i < |value| ==> GoodEntry(f, |value|, value[i])
  }

  predicate Allocated(f: Format, v: nat) {
    v != 0 && !f.IsBad(v)
  }

  /** An allocated cluster that belongs to no file. */
  predicate Orphan(f: Format, value: seq<nat>, owner: seq<Owner>, i: int)
    requires |owner| == |value|
  {
    IsCluster(|value|, i) && Allocated(f, value[i]) && owner[i] == Nobody
  }

  ghost function Orphans(f: Format, value: seq<nat>, owner: seq<Owner>): (r: set<int>)
    requires |owner| == |value|
    ensures forall i :: i in r <==> Orphan(f, value, owner, i)
  {
    set i | 2 <= i < |value| && Orphan(f, value, owner, i)
  }

  /** The members of `from` that link to j. */
  ghost function Predecessors(link: seq<nat>, from: set<int>, j: int): (r: set<int>)
    requires forall i :: i in from ==> 0 <= i < |link|
  {
    set i | i in from && link[i] == j
  }

  /** prev[j] counts the members of `from` that link to j. */
  ghost predicate Counts(prev: seq<int>, link: seq<nat>, from: set<int>)
    requires forall i :: i in from ==> 0 <= i < |link|
  {
    |prev| == |link| && forall j :: 2 <= j < |link| ==> prev[j] == |Predecessors(link, from, j)|
  }

  /** Every member of `from` links to a member of `from` or ends its chain. */
  ghost predicate Closed(f: Format, link: seq<nat>, from: set<int>) {
    && (forall i :: i in from ==> IsCluster(|link|, i))
    && (forall i :: i in from ==> link[i] in from || f.IsEof(link[i]))
  }

  // ----- orphans that are all linked to form cycles -----

  /** Some member of the set links to j. */
  ghost predicate LinkedTo(link: seq<nat>, from: set<int>, j: int) {
    exists i :: i in from && 0 <= i < |link| && link[i] == j
  }

  /** Picks for each member of `some` a member of `from` that links to it. */
  lemma {:induction false} ChoosePredecessors(link: seq<nat>, from: set<int>, some: set<int>) returns (pred: map<int, int>)
    requires forall j {:trigger LinkedTo(link, from, j)} :: j in some ==> LinkedTo(link, from, j)
    ensures pred.Keys == some
    ensures forall j {:trigger pred[j]} :: j in some ==> pred[j] in from && 0 <= pred[j] < |link| && link[pred[j]] == j
  {
    if some == {} {
      pred := map[];
    } else {
      var j := PickMember(some);
      var rest := ChoosePredecessors(link, from, some - {j});
      assert LinkedTo(link, from, j);
      var i :| i in from && 0 <= i < |link| && link[i] == j;
      pred := rest[j := i];
    }
  }

  /** If every member of a finite set is linked to from the set, then every member links into
      the set and no two link to the same member: the set is a union of disjoint cycles. */
  lemma PureCycles(link: seq<nat>, from: set<int>)
    requires forall j {:trigger LinkedTo(link, from, j)} :: j in from ==> LinkedTo(link, from, j)
    ensures forall i :: i in from ==> 0 <= i < |link| && link[i] in from
    ensures forall i, k :: i in from && k in from && link[i] == link[k] ==> i == k
  {
    var pred := ChoosePredecessors(link, from, from);
    forall i | i in from ensures 0 <= i < |link| && link[i] in from && pred[link[i]] == i {
      var j := InjectiveIsOnto(from, pred, i);
    }
  }
}
