/** Orphan recovery, reclaim_file of fat.c. */
module FatReclaim {
  // Every allocated cluster that no file owns becomes part of a recovered chain, whatever merges
  // and cycles the orphans form.
  import opened Sets
  import opened FatChains

  /** The table while orphans are being tagged.  `all` is the set of orphans at the start and
      `link` what they link to; `tag` lists the tagged ones in tagging order.  For the first
      `done` of them the chain is settled: it goes on to the next in the list or ends. */
  ghost predicate Tagging(f: Format, value: seq<nat>, owner: seq<Owner>, prev: seq<int>,
                          link: seq<nat>, all: set<int>, tag: seq<int>, done: nat)
  {
    && |owner| == |value| == |link| <= f.MinBad()
    && Closed(f, link, all) && Counts(prev, link, all)
    && (forall k :: 0 <= k < |tag| ==> tag[k] in all && owner[tag[k]] == Dummy)
    && (forall k, m :: 0 <= k < m < |tag| ==> tag[k] != tag[m])
    && (forall i :: i in all ==> owner[i] == Nobody || (owner[i] == Dummy && i in tag))
    && (forall i :: i in all && owner[i] == Nobody ==> value[i] == link[i])
    && (forall i :: 2 <= i < |value| && i !in all ==> owner[i] != Dummy && !Orphan(f, value, owner, i))
    && done <= |tag|
    && (forall k :: 0 <= k < done ==> Settled(f, value, tag, k) && LinkSettled(f, owner, link, tag[k]))
    && (forall k :: 0 <= k < |tag| ==> HeadMarked(f, value, prev, tag, k))
  }

  /** The k-th tagged cluster goes on to the next tagged one, or ends its chain. */
  ghost predicate Settled(f: Format, value: seq<nat>, tag: seq<int>, k: nat)
    requires k < |tag| && 0 <= tag[k] < |value|
  {
    f.IsEof(value[tag[k]]) || (k + 1 < |tag| && value[tag[k]] == tag[k + 1])
  }

  ghost predicate LinkSettled(f: Format, owner: seq<Owner>, link: seq<nat>, i: int)
    requires 0 <= i < |link|
  {
    f.IsEof(link[i]) || (link[i] < |owner| && owner[link[i]] == Dummy)
  }

  /** prev is 0 exactly where a chain starts. */
  ghost predicate HeadMarked(f: Format, value: seq<nat>, prev: seq<int>, tag: seq<int>, k: nat)
    requires k < |tag|
  {
    && 0 <= tag[k] < |prev|
    && (prev[tag[k]] == 0 <==> k == 0 || (0 <= tag[k - 1] < |value| && f.IsEof(value[tag[k - 1]])))
  }

  /** Entries of orphans are allocated, so next_cluster is never asked about a bad cluster. */
  lemma OrphanEntry(f: Format, value: seq<nat>, owner: seq<Owner>, prev: seq<int>,
                    link: seq<nat>, all: set<int>, tag: seq<int>, done: nat, i: int)
    requires Tagging(f, value, owner, prev, link, all, tag, done)
    requires i in all && value[i] == link[i]
    ensures IsCluster(|value|, i) && !f.IsBad(value[i]) && Allocated(f, value[i])
    ensures f.IsEof(value[i]) || (value[i] in all && IsCluster(|value|, value[i]))
  {}

  lemma TagFacts(f: Format, value: seq<nat>, owner: seq<Owner>, prev: seq<int>,
                 link: seq<nat>, all: set<int>, tag: seq<int>, done: nat)
    requires Tagging(f, value, owner, prev, link, all, tag, done)
    ensures |owner| == |value| == |link| == |prev| && done <= |tag|
    ensures forall i :: i in all ==> IsCluster(|value|, i) && (owner[i] == Nobody || (owner[i] == Dummy && i in tag))
    ensures forall i :: i in all && owner[i] == Nobody ==> value[i] == link[i] && i !in tag
    ensures forall i :: i in tag ==> i in all
    ensures forall k :: 0 <= k < |tag| ==> IsCluster(|value|, tag[k])
  {}

  lemma OrphanIsMember(f: Format, value: seq<nat>, owner: seq<Owner>, prev: seq<int>,
                       link: seq<nat>, all: set<int>, tag: seq<int>, done: nat, i: int)
    requires Tagging(f, value, owner, prev, link, all, tag, done)
    requires Orphan(f, value, owner, i)
    ensures i in all
  {}

  lemma TagBound(f: Format, value: seq<nat>, owner: seq<Owner>, prev: seq<int>,
                 link: seq<nat>, all: set<int>, tag: seq<int>, done: nat)
    requires Tagging(f, value, owner, prev, link, all, tag, done)
    ensures |tag| <= |all|
  {
    DistinctSize(tag);
    var tagged := set x | x in tag;
    SubsetSize(tagged, all);
  }

  /** Tagging one more cluster: a head, or what the last tagged cluster links to. */
  lemma TagOne(f: Format, value: seq<nat>, owner: seq<Owner>, prev: seq<int>,
               link: seq<nat>, all: set<int>, tag: seq<int>, done: nat, walk: int)
    requires Tagging(f, value, owner, prev, link, all, tag, done)
    requires walk in all && owner[walk] == Nobody
    requires if done == |tag| then prev[walk] == 0
             else done + 1 == |tag| && value[tag[done]] == link[tag[done]] == walk
    ensures Tagging(f, value, owner[walk := Dummy], prev, link, all, tag + [walk], |tag|)
  {
    hide Counts, Settled, LinkSettled, HeadMarked;
    var owner', tag', m := owner[walk := Dummy], tag + [walk], |tag|;
    forall i | 2 <= i < |value| && i !in all ensures owner'[i] != Dummy && !Orphan(f, value, owner', i) {
      assert !Orphan(f, value, owner, i);
    }
    CountFacts(f, value, owner, prev, link, all, tag, done);
    forall k | 0 <= k < m ensures Settled(f, value, tag', k) && LinkSettled(f, owner', link, tag'[k]) {
      TagOneSettles(f, value, owner, prev, link, all, tag, done, walk, k);
    }
    forall k | 0 <= k < m + 1 ensures HeadMarked(f, value, prev, tag', k) {
      TagOneMarks(f, value, owner, prev, link, all, tag, done, walk, k);
    }
  }

  lemma TagOneSettles(f: Format, value: seq<nat>, owner: seq<Owner>, prev: seq<int>,
                      link: seq<nat>, all: set<int>, tag: seq<int>, done: nat, walk: int, k: nat)
    requires Tagging(f, value, owner, prev, link, all, tag, done)
    requires walk in all && owner[walk] == Nobody && k < |tag|
    requires done == |tag| || (done + 1 == |tag| && value[tag[done]] == link[tag[done]] == walk)
    ensures Settled(f, value, tag + [walk], k) && LinkSettled(f, owner[walk := Dummy], link, tag[k])
  {
    hide Counts, HeadMarked;
    if k < done {
      assert Settled(f, value, tag, k) && LinkSettled(f, owner, link, tag[k]);
    }
  }

  lemma TagOneMarks(f: Format, value: seq<nat>, owner: seq<Owner>, prev: seq<int>,
                    link: seq<nat>, all: set<int>, tag: seq<int>, done: nat, walk: int, k: nat)
    requires Tagging(f, value, owner, prev, link, all, tag, done)
    requires walk in all && owner[walk] == Nobody && k <= |tag|
    requires if done == |tag| then prev[walk] == 0
             else done + 1 == |tag| && value[tag[done]] == link[tag[done]] == walk
    ensures HeadMarked(f, value, prev, tag + [walk], k)
  {
    hide LinkSettled;
    var m := |tag|;
    if k < m {
      assert HeadMarked(f, value, prev, tag, k);
    } else if done == m {
      if m > 0 {
        assert Settled(f, value, tag, m - 1);
      }
    } else {
      assert tag[done] in Predecessors(link, all, walk);
    }
  }

  lemma CountFacts(f: Format, value: seq<nat>, owner: seq<Owner>, prev: seq<int>,
                   link: seq<nat>, all: set<int>, tag: seq<int>, done: nat)
    requires Tagging(f, value, owner, prev, link, all, tag, done)
    ensures |owner| == |value| == |link| == |prev| <= f.MinBad()
    ensures Closed(f, link, all) && Counts(prev, link, all)
    ensures forall i :: i in all && owner[i] == Nobody ==> value[i] == link[i]
  {}

  /** The chain ends at the last tagged cluster, by its own mark or by a cut. */
  lemma EndChain(f: Format, value: seq<nat>, owner: seq<Owner>, prev: seq<int>,
                 link: seq<nat>, all: set<int>, tag: seq<int>, last: int, value': seq<nat>)
    requires 0 < |tag| && tag[|tag| - 1] == last
    requires Tagging(f, value, owner, prev, link, all, tag, |tag| - 1)
    requires |value'| == |value| && 0 <= last < |value|
    requires value' == value[last := value'[last]] && f.IsEof(value'[last])
    requires LinkSettled(f, owner, link, last)
    ensures Tagging(f, value', owner, prev, link, all, tag, |tag|)
  {
    var m := |tag| - 1;
    forall i | 2 <= i < |value| && i !in all ensures owner[i] != Dummy && !Orphan(f, value', owner, i) {
      assert !Orphan(f, value, owner, i);
    }
    forall k | 0 <= k <= m ensures Settled(f, value', tag, k) && LinkSettled(f, owner, link, tag[k]) {
      if k < m {
        assert Settled(f, value, tag, k) && LinkSettled(f, owner, link, tag[k]);
      }
    }
    forall k | 0 <= k <= m ensures HeadMarked(f, value', prev, tag, k) {
      assert HeadMarked(f, value, prev, tag, k);
    }
  }

  // ----- breaking a cycle -----

  ghost function Untagged(owner: seq<Owner>, all: set<int>): (r: set<int>)
    requires forall i :: i in all ==> 0 <= i < |owner|
    ensures forall i :: i in r <==> i in all && owner[i] == Nobody
  {
    set i | i in all && owner[i] == Nobody
  }

  /** When every orphan left over by tag_free has a predecessor, its predecessors are orphans. */
  lemma PredecessorIsUntagged(f: Format, value: seq<nat>, owner: seq<Owner>, prev: seq<int>,
                              link: seq<nat>, all: set<int>, tag: seq<int>, i: int)
    requires Tagging(f, value, owner, prev, link, all, tag, |tag|)
    requires i in all && link[i] in all && owner[link[i]] == Nobody
    ensures owner[i] == Nobody
  {}

  lemma UntaggedIsLinkedTo(f: Format, value: seq<nat>, owner: seq<Owner>, prev: seq<int>,
                           link: seq<nat>, all: set<int>, tag: seq<int>, left: set<int>, j: int)
    requires Tagging(f, value, owner, prev, link, all, tag, |tag|)
    requires left == Untagged(owner, all) && j in left && prev[j] != 0
    ensures LinkedTo(link, left, j)
  {
    var i := PickMember(Predecessors(link, all, j));
    PredecessorIsUntagged(f, value, owner, prev, link, all, tag, i);
  }

  /** No other member of the set links where i links. */
  ghost predicate OnlyPredecessor(link: seq<nat>, from: set<int>, i: int)
    requires 0 <= i < |link|
  {
    forall k :: k in from && 0 <= k < |link| && link[k] == link[i] ==> k == i
  }

  /** Each leftover orphan is on a pure cycle: it links to a leftover orphan whose only
      predecessor it is, so decrementing that one's prev takes it from 1 to 0. */
  lemma LeftoverIsOnCycle(f: Format, value: seq<nat>, owner: seq<Owner>, prev: seq<int>,
                          link: seq<nat>, all: set<int>, tag: seq<int>, i: int)
    requires Tagging(f, value, owner, prev, link, all, tag, |tag|)
    requires forall j :: j in all && owner[j] == Nobody ==> prev[j] != 0
    requires i in all && owner[i] == Nobody
    ensures value[i] == link[i] && link[i] in all && IsCluster(|value|, link[i]) && owner[link[i]] == Nobody
    ensures prev[link[i]] == 1 && OnlyPredecessor(link, all, i)
  {
    hide Tagging, Counts;
    CountFacts(f, value, owner, prev, link, all, tag, |tag|);
    var left := Untagged(owner, all);
    UntaggedFormCycles(f, value, owner, prev, link, all, tag, left);
    var j := link[i];
    forall k | k in all && link[k] == j ensures k == i {
      PredecessorIsUntagged(f, value, owner, prev, link, all, tag, k);
      assert k in left && i in left;
    }
    assert i in Predecessors(link, all, j);
    assert Predecessors(link, all, j) == {i};
    CountAt(prev, link, all, j);
  }

  lemma CountAt(prev: seq<int>, link: seq<nat>, all: set<int>, j: int)
    requires forall i :: i in all ==> 0 <= i < |link|
    requires Counts(prev, link, all) && 2 <= j < |link|
    ensures |prev| == |link| && prev[j] == |Predecessors(link, all, j)|
  {}

  lemma UntaggedFormCycles(f: Format, value: seq<nat>, owner: seq<Owner>, prev: seq<int>,
                           link: seq<nat>, all: set<int>, tag: seq<int>, left: set<int>)
    requires Tagging(f, value, owner, prev, link, all, tag, |tag|)
    requires left == Untagged(owner, all)
    requires forall j :: j in all && owner[j] == Nobody ==> prev[j] != 0
    ensures forall i :: i in left ==> 0 <= i < |link| && link[i] in left
    ensures forall i, k :: i in left && k in left && link[i] == link[k] ==> i == k
  {
    hide Tagging, LinkedTo;
    TagFacts(f, value, owner, prev, link, all, tag, |tag|);
    forall j | j in left ensures LinkedTo(link, left, j) {
      UntaggedIsLinkedTo(f, value, owner, prev, link, all, tag, left, j);
    }
    PureCycles(link, left);
  }

  lemma BreakCounts(f: Format, prev: seq<int>, link: seq<nat>, all: set<int>, i: int)
    requires Closed(f, link, all) && Counts(prev, link, all) && |link| <= f.MinBad()
    requires i in all && link[i] in all && OnlyPredecessor(link, all, i)
    ensures Closed(f, link[i := f.EofMark()], all)
    ensures Counts(prev[link[i] := 0], link[i := f.EofMark()], all)
  {
    assert i in Predecessors(link, all, link[i]);
    var prev', link' := prev[link[i] := 0], link[i := f.EofMark()];
    forall j | 2 <= j < |link| ensures prev'[j] == |Predecessors(link', all, j)| {
      if j == link[i] {
        assert Predecessors(link', all, j) == {};
      } else {
        assert Predecessors(link', all, j) == Predecessors(link, all, j);
      }
    }
  }

  /** Ending the chain at i and uncounting it leaves a consistent table in which the cluster
      after i is a chain head. */
  lemma BreakAt(f: Format, value: seq<nat>, owner: seq<Owner>, prev: seq<int>,
                link: seq<nat>, all: set<int>, tag: seq<int>, i: int)
    requires Tagging(f, value, owner, prev, link, all, tag, |tag|)
    requires i in all && owner[i] == Nobody && link[i] in all && owner[link[i]] == Nobody
    requires OnlyPredecessor(link, all, i)
    ensures Tagging(f, value[i := f.EofMark()], owner, prev[link[i] := 0], link[i := f.EofMark()], all, tag, |tag|)
  {
    hide Counts, Settled, HeadMarked, LinkSettled;
    CountFacts(f, value, owner, prev, link, all, tag, |tag|);
    BreakCounts(f, prev, link, all, i);
    var value', prev', link' := value[i := f.EofMark()], prev[link[i] := 0], link[i := f.EofMark()];
    forall j | 2 <= j < |value| && j !in all ensures owner[j] != Dummy && !Orphan(f, value', owner, j) {
      assert !Orphan(f, value, owner, j);
    }
    forall k | 0 <= k < |tag| ensures Settled(f, value', tag, k) && LinkSettled(f, owner, link', tag[k]) && HeadMarked(f, value', prev', tag, k) {
      TagStays(f, value, owner, prev, link, all, tag, i, k);
    }
  }

  lemma TagStays(f: Format, value: seq<nat>, owner: seq<Owner>, prev: seq<int>,
                 link: seq<nat>, all: set<int>, tag: seq<int>, i: int, k: nat)
    requires Tagging(f, value, owner, prev, link, all, tag, |tag|)
    requires i in all && owner[i] == Nobody && link[i] in all && owner[link[i]] == Nobody && k < |tag|
    ensures Settled(f, value[i := f.EofMark()], tag, k) && LinkSettled(f, owner, link[i := f.EofMark()], tag[k])
    ensures HeadMarked(f, value[i := f.EofMark()], prev[link[i] := 0], tag, k)
  {
    assert Settled(f, value, tag, k) && LinkSettled(f, owner, link, tag[k]) && HeadMarked(f, value, prev, tag, k);
  }

  // ----- which links are cut -----

  /** A cycle of the orphans that ends with i and the link from i. */
  ghost predicate IsCycle(link: seq<nat>, all: set<int>, path: seq<int>, i: int) {
    && 0 < |path| && path[|path| - 1] == i
    && (forall k :: 0 <= k < |path| ==> path[k] in all && 0 <= path[k] < |link|)
    && (forall k :: 0 <= k < |path| - 1 ==> link[path[k]] == path[k + 1])
    && link[i] == path[0]
  }

  ghost predicate OnCycle(link: seq<nat>, all: set<int>, i: int) {
    exists path :: IsCycle(link, all, path, i)
  }

  /** Following links from i within a set that they lead into one to one comes back to i. */
  lemma {:induction false} ComesBack(link: seq<nat>, all: set<int>, left: set<int>, i: int, path: seq<int>)
    requires left <= all && i in left && forall j :: j in left ==> 0 <= j < |link| && link[j] in left
    requires forall j, k :: j in left && k in left && link[j] == link[k] ==> j == k
    requires 0 < |path| && path[0] == i
    requires forall k :: 0 <= k < |path| ==> path[k] in left
    requires forall k :: 0 <= k < |path| - 1 ==> link[path[k]] == path[k + 1]
    requires forall j, k :: 0 <= j < k < |path| ==> path[j] != path[k]
    ensures OnCycle(link, all, i)
    decreases |left| - |path|
  {
    var last := path[|path| - 1];
    PathIsSmall(left, path);
    if link[last] == i {
      var cycle := path[1..] + [i];
      forall k | 0 <= k < |cycle| ensures cycle[k] in all && 0 <= cycle[k] < |link| {
        assert cycle[k] in left;
      }
      assert IsCycle(link, all, cycle, i);
    } else {
      var next: int := link[last];
      forall k | 1 <= k < |path| ensures path[k] != next {
        assert link[path[k - 1]] == path[k] && path[k - 1] != last;
      }
      PathIsSmall(left, path + [next]);
      ComesBack(link, all, left, i, path + [next]);
    }
  }

  lemma PathIsSmall(left: set<int>, path: seq<int>)
    requires forall k :: 0 <= k < |path| ==> path[k] in left
    requires forall j, k :: 0 <= j < k < |path| ==> path[j] != path[k]
    ensures |path| <= |left|
  {
    DistinctSize(path);
    SubsetSize((set x | x in path), left);
  }

  lemma LeftoverComesBack(f: Format, value: seq<nat>, owner: seq<Owner>, prev: seq<int>,
                          link: seq<nat>, all: set<int>, tag: seq<int>, i: int)
    requires Tagging(f, value, owner, prev, link, all, tag, |tag|)
    requires forall j :: j in all && owner[j] == Nobody ==> prev[j] != 0
    requires i in all && owner[i] == Nobody
    ensures OnCycle(link, all, i)
  {
    hide Tagging, OnCycle;
    TagFacts(f, value, owner, prev, link, all, tag, |tag|);
    var left := Untagged(owner, all);
    UntaggedFormCycles(f, value, owner, prev, link, all, tag, left);
    ComesBack(link, all, left, i, [i]);
  }

  /** Links have been ended only where they lead to no orphan or lie on a cycle. */
  ghost predicate CutsJustified(f: Format, value0: seq<nat>, link: seq<nat>, all: set<int>) {
    && |link| == |value0|
    && forall i :: 0 <= i < |link| && link[i] != value0[i] ==> f.IsEof(link[i]) && (value0[i] !in all || OnCycle(value0, all, i))
  }

  /** Breaking a cycle of what is left of the links breaks a cycle of the table. */
  lemma CutOnCycle(f: Format, value0: seq<nat>, link: seq<nat>, all: set<int>, i: int)
    requires CutsJustified(f, value0, link, all) && |link| <= f.MinBad() && 0 <= i < |link| && OnCycle(link, all, i)
    ensures CutsJustified(f, value0, link[i := f.EofMark()], all)
  {
    var path :| IsCycle(link, all, path, i);
    forall k | 0 <= k < |path| ensures value0[path[k]] == link[path[k]] {
      if k < |path| - 1 {
        assert link[path[k]] == path[k + 1];
      }
    }
    assert IsCycle(value0, all, path, i);
  }

  /** Why the link of an orphan may be gone: it led to no orphan, it closed a cycle, or another
      link still leads where it led. */
  ghost predicate CutNeeded(value0: seq<nat>, value: seq<nat>, all: set<int>, i: int)
    requires 0 <= i < |value0| == |value|
  {
    || value0[i] !in all
    || OnCycle(value0, all, i)
    || LinkedTo(value, all, value0[i])
  }

  lemma CutsAreNeeded(f: Format, value0: seq<nat>, value: seq<nat>, owner: seq<Owner>, prev: seq<int>,
                      link: seq<nat>, all: set<int>, tag: seq<int>, i: int)
    requires Tagging(f, value, owner, prev, link, all, tag, |tag|)
    requires forall j :: j in all ==> owner[j] == Dummy
    requires CutsJustified(f, value0, link, all)
    requires i in all && 0 <= i < |value| && value[i] != value0[i]
    ensures CutNeeded(value0, value, all, i)
  {
    var t := value0[i];
    if link[i] == t && t in all {
      assert i in Predecessors(link, all, t);
      assert IsCluster(|link|, t);
      var k :| 0 <= k < |tag| && tag[k] == t;
      assert HeadMarked(f, value, prev, tag, k);
      assert prev[t] != 0;
      assert Settled(f, value, tag, k - 1);
      assert value[tag[k - 1]] == t;
    }
  }

  // ----- counting predecessors -----

  ghost function Below(all: set<int>, i: int): (r: set<int>)
    ensures forall k :: k in r <==> k in all && k < i
  {
    set k | k in all && k < i
  }

  /** The table after the first i entries have been looked at. */
  ghost predicate Linking(f: Format, value0: seq<nat>, value: seq<nat>, owner: seq<Owner>, prev: seq<int>, all: set<int>, i: int)
  {
    && |value0| == |value| == |owner| == |prev| && GoodTable(f, value0)
    && all == Orphans(f, value0, owner)
    && (forall j :: 0 <= j < |value| && value[j] != value0[j] ==> j in all && j < i && value[j] == f.EofMark() && value0[j] !in all)
    && (forall j :: j in all && j < i ==> value[j] in all || f.IsEof(value[j]))
    && (forall j :: 2 <= j < |value| ==> prev[j] == |Predecessors(value, Below(all, i), j)|)
  }

  /** An entry that is no orphan, or an orphan that ends its chain, changes no count. */
  lemma LinkNothing(f: Format, value0: seq<nat>, value: seq<nat>, owner: seq<Owner>, prev: seq<int>, all: set<int>, i: int, v: nat)
    requires Linking(f, value0, value, owner, prev, all, i) && IsCluster(|value|, i)
    requires v == value[i] || (i in all && v == f.EofMark() && value[i] !in all)
    requires i in all ==> f.IsEof(v)
    ensures Linking(f, value0, value[i := v], owner, prev, all, i + 1)
  {
    var value' := value[i := v];
    forall j | 2 <= j < |value| ensures prev[j] == |Predecessors(value', Below(all, i + 1), j)| {
      assert Predecessors(value', Below(all, i + 1), j) == Predecessors(value, Below(all, i), j);
    }
  }

  /** An orphan that links to an orphan adds one to that one's count. */
  lemma LinkOne(f: Format, value0: seq<nat>, value: seq<nat>, owner: seq<Owner>, prev: seq<int>, all: set<int>, i: int)
    requires Linking(f, value0, value, owner, prev, all, i) && i in all && value[i] in all
    ensures Linking(f, value0, value, owner, prev[value[i] := prev[value[i]] + 1], all, i + 1)
  {
    var t := value[i];
    var prev' := prev[t := prev[t] + 1];
    forall j | 2 <= j < |value| ensures prev'[j] == |Predecessors(value, Below(all, i + 1), j)| {
      OneMorePredecessor(value, all, i, j);
    }
  }

  lemma OneMorePredecessor(value: seq<nat>, all: set<int>, i: int, j: int)
    requires i in all && forall k :: k in all ==> 0 <= k < |value|
    ensures |Predecessors(value, Below(all, i + 1), j)| == |Predecessors(value, Below(all, i), j)| + if value[i] == j then 1 else 0
  {
    var before, after := Predecessors(value, Below(all, i), j), Predecessors(value, Below(all, i + 1), j);
    if j == value[i] {
      assert after == before + {i};
    } else {
      assert after == before;
    }
  }

  /** What the test in the source says about the next cluster of an orphan. */
  lemma NextIsOrphan(f: Format, value0: seq<nat>, value: seq<nat>, owner: seq<Owner>, prev: seq<int>, all: set<int>, i: int)
    requires Linking(f, value0, value, owner, prev, all, i) && IsCluster(|value|, i)
    ensures i in all <==> owner[i] == Nobody && Allocated(f, value[i])
    ensures f.IsEof(value[i]) ==> |value| <= value[i]
    ensures f.IsBad(value[i]) ==> |value| <= value[i]
    ensures value[i] != 0 && value[i] < |value| ==> IsCluster(|value|, value[i]) && Allocated(f, value[i])
    ensures value[i] != 0 && |value| <= value[i] && !f.IsBad(value[i]) ==> f.IsEof(value[i])
  {}

  lemma NextIsMember(f: Format, value0: seq<nat>, value: seq<nat>, owner: seq<Owner>, prev: seq<int>, all: set<int>, i: int)
    requires Linking(f, value0, value, owner, prev, all, i) && IsCluster(|value|, i)
    requires IsCluster(|value|, value[i])
    ensures value[i] in all <==> owner[value[i]] == Nobody && value[value[i]] != 0 && !f.IsBad(value[value[i]])
  {}

  lemma LinkingStart(f: Format, value: seq<nat>, owner: seq<Owner>, prev: seq<int>, all: set<int>)
    requires |value| == |owner| == |prev| && GoodTable(f, value) && all == Orphans(f, value, owner)
    requires forall j :: 2 <= j < |prev| ==> prev[j] == 0
    ensures Linking(f, value, value, owner, prev, all, 2)
  {
    forall j | 2 <= j < |value| ensures |Predecessors(value, Below(all, 2), j)| == 0 {
      assert Predecessors(value, Below(all, 2), j) == {};
    }
  }

  lemma LinkingDone(f: Format, value0: seq<nat>, value: seq<nat>, owner: seq<Owner>, prev: seq<int>, all: set<int>)
    requires Linking(f, value0, value, owner, prev, all, |value|)
    requires forall i :: 2 <= i < |value| ==> owner[i] != Dummy
    ensures Tagging(f, value, owner, prev, value, all, [], 0)
    ensures forall i :: 0 <= i < |value| && value[i] != value0[i] ==> i in all && value[i] == f.EofMark() && value0[i] !in all
  {
    assert Below(all, |value|) == all;
    forall i | 2 <= i < |value| && i !in all ensures owner[i] != Dummy && !Orphan(f, value, owner, i) {
      assert !Orphan(f, value0, owner, i);
    }
  }

  // ----- the chains that are left -----

  /** path is a chain: each entry links to the next, and the last ends it. */
  ghost predicate IsChain(f: Format, value: seq<nat>, path: seq<int>) {
    && 0 < |path|
    && (forall k :: 0 <= k < |path| ==> IsCluster(|value|, path[k]))
    && (forall k :: 0 <= k < |path| - 1 ==> value[path[k]] == path[k + 1])
    && f.IsEof(value[path[|path| - 1]])
  }

  function Flatten(chains: seq<seq<int>>): seq<int> {
    if chains == [] then [] else Flatten(chains[..|chains| - 1]) + chains[|chains| - 1]
  }

  ghost predicate Distinct(s: seq<int>) {
    forall i, j :: 0 <= i < j < |s| ==> s[i] != s[j]
  }

  /** The index in tag of the head of the chain that tag[k] is on. */
  ghost function HeadIndex(prev: seq<int>, tag: seq<int>, k: nat): (h: nat)
    requires k < |tag|
    ensures h <= k
  {
    if k == 0 || !(0 <= tag[k] < |prev|) || prev[tag[k]] == 0 then k else HeadIndex(prev, tag, k - 1)
  }

  lemma {:induction false} HeadIndexFrom(prev: seq<int>, tag: seq<int>, e: nat, k: nat)
    requires e <= k < |tag| && 0 <= tag[e] < |prev| && prev[tag[e]] == 0
    ensures e <= HeadIndex(prev, tag, k)
  {
    if k != e && 0 <= tag[k] < |prev| && prev[tag[k]] != 0 {
      HeadIndexFrom(prev, tag, e, k - 1);
    }
  }

  /** tag[h..e] is a whole chain: it starts at a head, goes on link by link, and ends at e. */
  ghost predicate WholeChain(f: Format, value: seq<nat>, prev: seq<int>, tag: seq<int>, h: nat, e: nat) {
    && h < e <= |tag| && IsChain(f, value, tag[h..e])
    && forall k :: 0 <= k < |tag| ==> (HeadIndex(prev, tag, k) == h <==> h <= k < e)
  }

  /** One step along a chain of tagged clusters. */
  lemma ChainStep(f: Format, value: seq<nat>, owner: seq<Owner>, prev: seq<int>,
                  link: seq<nat>, all: set<int>, tag: seq<int>, k: nat)
    requires Tagging(f, value, owner, prev, link, all, tag, |tag|) && k < |tag|
    ensures IsCluster(|value|, tag[k]) && |prev| == |value| && !f.IsBad(value[tag[k]])
    ensures !f.IsEof(value[tag[k]]) ==> k + 1 < |tag| && value[tag[k]] == tag[k + 1] && prev[tag[k + 1]] != 0
    ensures f.IsEof(value[tag[k]]) && k + 1 < |tag| ==> prev[tag[k + 1]] == 0
  {
    assert Settled(f, value, tag, k);
    if k + 1 < |tag| {
      assert HeadMarked(f, value, prev, tag, k + 1);
    }
  }

  lemma EndOfWalk(f: Format, value: seq<nat>, owner: seq<Owner>, prev: seq<int>,
                  link: seq<nat>, all: set<int>, tag: seq<int>, h: nat, e: nat)
    requires Tagging(f, value, owner, prev, link, all, tag, |tag|) && h < e <= |tag|
    requires |prev| == |value| && forall m :: 0 <= m < |tag| ==> IsCluster(|value|, tag[m])
    requires prev[tag[h]] == 0
    requires forall k :: h <= k < e ==> HeadIndex(prev, tag, k) == h
    requires forall k :: h <= k < e - 1 ==> value[tag[k]] == tag[k + 1]
    requires f.IsEof(value[tag[e - 1]])
    ensures WholeChain(f, value, prev, tag, h, e)
  {
    hide Tagging;
    ChainStep(f, value, owner, prev, link, all, tag, e - 1);
    forall k | 0 <= k < |tag| ensures HeadIndex(prev, tag, k) == h <==> h <= k < e {
      if e <= k {
        HeadIndexFrom(prev, tag, e, k);
      }
    }
    var path := tag[h..e];
    assert forall k :: 0 <= k < |path| ==> path[k] == tag[h + k];
  }

  /** A directory entry made for a recovered chain: the halves of the start cluster, and the
      32-bit size field. */
  datatype RecoveredFile = RecoveredFile(start: nat, startHi: nat, size: nat)

  /** Bytes of some clusters, in 32 bits. */
  function SizeOf(count: nat, clusterSize: nat): nat {
    (count * clusterSize) % 0x1_0000_0000
  }

  function FileFor(fatBits: nat, clusterSize: nat, chain: seq<int>): RecoveredFile
    requires 0 < |chain| && 0 <= chain[0]
  {
    RecoveredFile(chain[0] % 0x1_0000, if fatBits == 32 then chain[0] / 0x1_0000 % 0x1_0000 else 0,
                  SizeOf(|chain|, clusterSize))
  }

  /** The clusters that a reader of the table finds from cluster i on, n of them at the most. */
  function Followed(f: Format, value: seq<nat>, i: int, n: nat): seq<int>
    decreases n
  {
    if n == 0 || !IsCluster(|value|, i) then []
    else [i] + if f.IsEof(value[i]) then [] else Followed(f, value, value[i], n - 1)
  }

  /** Cluster numbers fit the start field of an entry, which has a second half on FAT32 only. */
  predicate Numbered(fatBits: nat, length: nat) {
    length <= if fatBits == 32 then 0x1_0000_0000 else 0x1_0000
  }

  /** An entry leads to a chain: the cluster that its fields name is the first of the chain, and the
      table from there on is the chain. */
  ghost predicate LeadsTo(f: Format, value: seq<nat>, fatBits: nat, file: RecoveredFile, chain: seq<int>) {
    var first := file.start + if fatBits == 32 then 0x1_0000 * file.startHi else 0;
    && file.start < 0x1_0000 && file.startHi < 0x1_0000 && (fatBits != 32 ==> file.startHi == 0)
    && chain != [] && chain[0] == first && Followed(f, value, first, |value|) == chain
  }

  lemma ChainBegins(f: Format, value: seq<nat>, chain: seq<int>)
    requires IsChain(f, value, chain) && |value| <= f.MinBad()
    ensures chain != [] && IsCluster(|value|, chain[0])
    ensures |chain| == 1 ==> f.IsEof(value[chain[0]])
    ensures 1 < |chain| ==> value[chain[0]] == chain[1] && !f.IsEof(value[chain[0]]) && IsChain(f, value, chain[1..])
  {}

  lemma {:induction false} FollowedIs(f: Format, value: seq<nat>, chain: seq<int>, n: nat)
    requires IsChain(f, value, chain) && |value| <= f.MinBad() && |chain| <= n
    ensures Followed(f, value, chain[0], n) == chain
    decreases |chain|
  {
    ChainBegins(f, value, chain);
    if 1 < |chain| {
      hide IsChain;
      FollowedIs(f, value, chain[1..], n - 1);
      assert chain == [chain[0]] + chain[1..];
    } else {
      assert chain == [chain[0]];
    }
  }

  lemma ChainIsShort(f: Format, value: seq<nat>, owner: seq<Owner>, prev: seq<int>, chains: seq<seq<int>>, m: nat)
    requires Recovered(f, value, owner, prev, chains) && m < |chains|
    ensures |chains[m]| <= |value|
  {
    hide CollectedHeads;
    var chain := chains[m];
    forall j, k | 0 <= j < k < |chain| ensures chain[j] != chain[k] {
      var a := InFlatten(chains, m, j);
      var b := InFlatten(chains, m, k);
    }
    DistinctSize(chain);
    var members := set x | x in chain;
    SubsetSize(members, UpTo(|value|));
  }

  /** Every entry leads to its chain. */
  lemma EntriesLead(f: Format, value: seq<nat>, owner: seq<Owner>, prev: seq<int>, fatBits: nat, clusterSize: nat,
                    chains: seq<seq<int>>, files: seq<RecoveredFile>)
    requires |value| <= f.MinBad() && Numbered(fatBits, |value|)
    requires Recovered(f, value, owner, prev, chains) && |files| == |chains|
    requires forall m :: 0 <= m < |files| ==> 0 < |chains[m]| && 0 <= chains[m][0] && files[m] == FileFor(fatBits, clusterSize, chains[m])
    ensures forall m :: 0 <= m < |files| ==> LeadsTo(f, value, fatBits, files[m], chains[m])
  {
    hide CollectedHeads, Flatten, Followed;
    forall m | 0 <= m < |files| ensures LeadsTo(f, value, fatBits, files[m], chains[m]) {
      ChainIsShort(f, value, owner, prev, chains, m);
      FollowedIs(f, value, chains[m], |value|);
    }
  }

  /** The recovered chains: each ends properly, no cluster is on two of them, together they hold
      exactly the clusters the dummy owns, and their heads, in ascending order, are exactly those
      without a predecessor. */
  ghost predicate Recovered(f: Format, value: seq<nat>, owner: seq<Owner>, prev: seq<int>, chains: seq<seq<int>>) {
    && |value| == |owner| == |prev|
    && (forall m :: 0 <= m < |chains| ==> IsChain(f, value, chains[m]))
    && Distinct(Flatten(chains))
    && (forall i :: i in Flatten(chains) <==> IsCluster(|owner|, i) && owner[i] == Dummy)
    && CollectedHeads(owner, prev, Heads(chains), |owner|)
  }

  lemma CollectionDone(f: Format, value: seq<nat>, owner: seq<Owner>, prev: seq<int>,
                       link: seq<nat>, all: set<int>, tag: seq<int>, chains: seq<seq<int>>)
    requires Tagging(f, value, owner, prev, link, all, tag, |tag|)
    requires Collected(f, value, owner, prev, tag, chains, |value|)
    ensures Recovered(f, value, owner, prev, chains)
  {
    hide IsChain, CollectedHeads, Counts, Closed, Settled, HeadMarked, LinkSettled, Flatten;
    var flat := Flatten(chains);
    forall i | IsCluster(|owner|, i) && owner[i] == Dummy ensures i in flat {
      assert i in tag;
      var k :| 0 <= k < |tag| && tag[k] == i;
    }
    TagFacts(f, value, owner, prev, link, all, tag, |tag|);
  }

  ghost function Heads(chains: seq<seq<int>>): (r: seq<int>)
    requires forall m :: 0 <= m < |chains| ==> 0 < |chains[m]|
    ensures |r| == |chains| && forall m :: 0 <= m < |r| ==> r[m] == chains[m][0]
  {
    seq(|chains|, m requires 0 <= m < |chains| => chains[m][0])
  }

  /** flat lists, once each, the tagged clusters whose chain head is below i. */
  ghost predicate CollectedTags(prev: seq<int>, tag: seq<int>, flat: seq<int>, i: int) {
    && Distinct(flat)
    && (forall x :: x in flat ==> x in tag)
    && (forall k :: 0 <= k < |tag| ==> (tag[k] in flat <==> tag[HeadIndex(prev, tag, k)] < i))
  }

  /** heads lists, in ascending order, the heads below i. */
  ghost predicate CollectedHeads(owner: seq<Owner>, prev: seq<int>, heads: seq<int>, i: int)
    requires |owner| == |prev|
  {
    && (forall j :: j in heads <==> 2 <= j < |owner| && j < i && owner[j] == Dummy && prev[j] == 0)
    && (forall m, n :: 0 <= m < n < |heads| ==> heads[m] < heads[n])
  }

  /** The chains whose heads are below i have been collected, in the order of their heads. */
  ghost predicate Collected(f: Format, value: seq<nat>, owner: seq<Owner>, prev: seq<int>,
                            tag: seq<int>, chains: seq<seq<int>>, i: int)
  {
    && |value| == |owner| == |prev|
    && (forall k :: 0 <= k < |tag| ==> IsCluster(|value|, tag[k]))
    && (forall m :: 0 <= m < |chains| ==> IsChain(f, value, chains[m]))
    && CollectedTags(prev, tag, Flatten(chains), i)
    && CollectedHeads(owner, prev, Heads(chains), i)
  }

  lemma CollectNothing(f: Format, value: seq<nat>, owner: seq<Owner>, prev: seq<int>,
                       link: seq<nat>, all: set<int>, tag: seq<int>, chains: seq<seq<int>>, i: int)
    requires Tagging(f, value, owner, prev, link, all, tag, |tag|) && IsCluster(|value|, i)
    requires Collected(f, value, owner, prev, tag, chains, i)
    requires owner[i] != Dummy || prev[i] != 0
    ensures Collected(f, value, owner, prev, tag, chains, i + 1)
  {
    hide Flatten, IsChain, Tagging, HeadIndex;
    forall k | 0 <= k < |tag| ensures tag[HeadIndex(prev, tag, k)] != i {
      HeadIsHead(f, value, owner, prev, link, all, tag, k);
    }
  }

  lemma {:induction false} HeadIsHead(f: Format, value: seq<nat>, owner: seq<Owner>, prev: seq<int>,
                   link: seq<nat>, all: set<int>, tag: seq<int>, k: nat)
    requires Tagging(f, value, owner, prev, link, all, tag, |tag|) && k < |tag|
    ensures |prev| == |owner| && IsCluster(|owner|, tag[HeadIndex(prev, tag, k)])
    ensures owner[tag[HeadIndex(prev, tag, k)]] == Dummy && prev[tag[HeadIndex(prev, tag, k)]] == 0
  {
    hide Settled, LinkSettled, Orphan;
    assert HeadMarked(f, value, prev, tag, k);
    if k > 0 && prev[tag[k]] != 0 {
      HeadIsHead(f, value, owner, prev, link, all, tag, k - 1);
    }
  }

  lemma CollectTags(f: Format, value: seq<nat>, prev: seq<int>, tag: seq<int>, flat: seq<int>, h: nat, e: nat)
    requires WholeChain(f, value, prev, tag, h, e) && Distinct(tag)
    requires CollectedTags(prev, tag, flat, tag[h])
    ensures CollectedTags(prev, tag, flat + tag[h..e], tag[h] + 1)
  {
    hide IsChain;
    var path, i := tag[h..e], tag[h];
    forall k | 0 <= k < |tag| ensures tag[k] in path <==> h <= k < e {
      if h <= k < e {
        assert path[k - h] == tag[k];
      }
    }
    forall k | 0 <= k < |tag| ensures tag[k] in flat + path <==> tag[HeadIndex(prev, tag, k)] < i + 1 {
      assert HeadIndex(prev, tag, k) == h <==> tag[HeadIndex(prev, tag, k)] == i;
    }
    forall x | x in path ensures x !in flat {
      var k :| h <= k < e && tag[k] == x;
      assert HeadIndex(prev, tag, k) == h;
    }
    DistinctConcat(flat, path);
  }

  lemma DistinctConcat(a: seq<int>, b: seq<int>)
    requires Distinct(a) && Distinct(b) && forall x :: x in b ==> x !in a
    ensures Distinct(a + b)
  {
    forall i, j | 0 <= i < j < |a + b| ensures (a + b)[i] != (a + b)[j] {
      if |a| <= j {
        assert (a + b)[j] in b;
      }
    }
  }

  lemma CollectHeads(owner: seq<Owner>, prev: seq<int>, heads: seq<int>, i: int)
    requires |owner| == |prev| && IsCluster(|owner|, i) && owner[i] == Dummy && prev[i] == 0
    requires CollectedHeads(owner, prev, heads, i)
    ensures CollectedHeads(owner, prev, heads + [i], i + 1)
  {
    forall m, n | 0 <= m < n < |heads + [i]| ensures (heads + [i])[m] < (heads + [i])[n] {
      assert heads[m] in heads;
    }
  }

  lemma CollectOne(f: Format, value: seq<nat>, owner: seq<Owner>, prev: seq<int>,
                   tag: seq<int>, chains: seq<seq<int>>, h: nat, e: nat)
    requires WholeChain(f, value, prev, tag, h, e) && Distinct(tag)
    requires Collected(f, value, owner, prev, tag, chains, tag[h])
    requires owner[tag[h]] == Dummy && prev[tag[h]] == 0
    ensures Collected(f, value, owner, prev, tag, chains + [tag[h..e]], tag[h] + 1)
  {
    hide CollectedTags, CollectedHeads, IsChain, Flatten;
    var path, i := tag[h..e], tag[h];
    var chains' := chains + [path];
    CollectTags(f, value, prev, tag, Flatten(chains), h, e);
    FlattenOne(chains, path);
    ChainsNonempty(f, value, chains);
    CollectHeads(owner, prev, Heads(chains), i);
    assert IsChain(f, value, path);
    ChainsNonempty(f, value, chains');
    assert Heads(chains') == Heads(chains) + [i];
  }

  lemma ChainsNonempty(f: Format, value: seq<nat>, chains: seq<seq<int>>)
    requires forall m :: 0 <= m < |chains| ==> IsChain(f, value, chains[m])
    ensures forall m :: 0 <= m < |chains| ==> 0 < |chains[m]|
  {}

  /** next_cluster: -1 after the last cluster. */
  function NextCluster(f: Format, v: nat): int
    requires !f.IsBad(v)
  {
    if f.IsEof(v) then -1 else v
  }

  /** The tagged clusters from position h up to e are on the chain of h, each linked to the next,
      the last one too unless it ends the chain. */
  ghost predicate Walked(value: seq<nat>, prev: seq<int>, tag: seq<int>, h: nat, e: nat, ended: bool) {
    && h <= e <= |tag| && (forall k :: 0 <= k < |tag| ==> 0 <= tag[k] < |value|)
    && (forall k :: h <= k < e ==> HeadIndex(prev, tag, k) == h)
    && (forall k :: h <= k < e && k + 1 < |tag| && (k + 1 < e || !ended) ==> value[tag[k]] == tag[k + 1])
  }

  lemma HeadOfChain(prev: seq<int>, tag: seq<int>, h: nat)
    requires h < |tag| && 0 <= tag[h] < |prev| && prev[tag[h]] == 0
    ensures HeadIndex(prev, tag, h) == h
  {}

  lemma WalkedNone(value: seq<nat>, prev: seq<int>, tag: seq<int>, h: nat)
    requires h < |tag| && forall k :: 0 <= k < |tag| ==> 0 <= tag[k] < |value|
    ensures Walked(value, prev, tag, h, h, false)
  {}

  lemma WalkedAll(value: seq<nat>, prev: seq<int>, tag: seq<int>, h: nat, e: nat)
    requires Walked(value, prev, tag, h, e, true)
    ensures forall k :: h <= k < e ==> HeadIndex(prev, tag, k) == h
    ensures forall k :: h <= k < e - 1 ==> value[tag[k]] == tag[k + 1]
  {}

  lemma WalkedOne(f: Format, value: seq<nat>, prev: seq<int>, tag: seq<int>, h: nat, e: nat)
    requires Walked(value, prev, tag, h, e, false) && e < |tag| && HeadIndex(prev, tag, e) == h && |prev| == |value|
    requires !f.IsBad(value[tag[e]])
    requires !f.IsEof(value[tag[e]]) ==> e + 1 < |tag| && value[tag[e]] == tag[e + 1] && prev[tag[e + 1]] != 0
    ensures f.IsEof(value[tag[e]]) ==> NextCluster(f, value[tag[e]]) == -1 && Walked(value, prev, tag, h, e + 1, true)
    ensures !f.IsEof(value[tag[e]]) ==> NextCluster(f, value[tag[e]]) == tag[e + 1]
    ensures !f.IsEof(value[tag[e]]) ==> Walked(value, prev, tag, h, e + 1, false) && HeadIndex(prev, tag, e + 1) == h
  {}

  class DosFs {
    const format: Format
    const fatBits: nat
    const clusterSize: nat
    const clusters: nat
    const value: array<nat>
    const owner: array<Owner>
    const prev: array<int>

    ghost predicate Shaped()
    {
      value.Length == owner.Length == prev.Length == clusters + 2 && value as object != prev as object
    }

    /** set_fat with -1: end the chain here. */
    method SetEof(i: int)
      requires Shaped() && IsCluster(value.Length, i)
      modifies value
      ensures value[..] == old(value[..])[i := format.EofMark()]
    {
      value[i] := format.EofMark();
    }

    /** The first two loops: clear the counts, end chains that run into something that is no
        orphan, and count predecessors. */
    method LinkOrphans() returns (ghost all: set<int>)
      requires Shaped() && GoodTable(format, value[..])
      requires forall i :: 2 <= i < owner.Length ==> owner[i] != Dummy
      modifies value, prev
      ensures all == Orphans(format, old(value[..]), owner[..])
      ensures Tagging(format, value[..], owner[..], prev[..], value[..], all, [], 0)
      ensures forall i :: 0 <= i < value.Length && value[i] != old(value[i]) ==>
        i in all && value[i] == format.EofMark() && old(value[i]) !in all
    {
      hide Tagging, Linking;
      var n := value.Length;
      ghost var value0 := value[..];
      all := Orphans(format, value0, owner[..]);
      for i := 2 to n
        invariant value[..] == value0
        invariant forall j :: 2 <= j < i ==> prev[j] == 0
      {
        prev[i] := 0;
      }
      LinkingStart(format, value0, owner[..], prev[..], all);
      for i := 2 to n
        invariant Linking(format, value0, value[..], owner[..], prev[..], all, i)
      {
        var next := value[i];
        NextIsOrphan(format, value0, value[..], owner[..], prev[..], all, i);
        if owner[i] == Nobody && next != 0 && next < n {
          NextIsMember(format, value0, value[..], owner[..], prev[..], all, i);
          if owner[next] != Nobody || value[next] == 0 || format.IsBad(value[next]) {
            LinkNothing(format, value0, value[..], owner[..], prev[..], all, i, format.EofMark());
            SetEof(i);
          } else {
            LinkOne(format, value0, value[..], owner[..], prev[..], all, i);
            prev[next] := prev[next] + 1;
          }
        } else {
          LinkNothing(format, value0, value[..], owner[..], prev[..], all, i, value[i]);
          assert value[..] == value[..][i := value[i]];
        }
      }
      LinkingDone(format, value0, value[..], owner[..], prev[..], all);
    }

    /** The inner loop: breaks the cycle that the first leftover orphan is on, if there is one. */
    method BreakCycle(ghost link: seq<nat>, ghost all: set<int>, ghost tag: seq<int>)
      returns (changed: bool, ghost link': seq<nat>, ghost head: int, ghost cut: int)
      requires Shaped() && Tagging(format, value[..], owner[..], prev[..], link, all, tag, |tag|)
      requires forall i :: i in all && owner[i] == Nobody ==> prev[i] != 0
      modifies value, prev
      ensures Tagging(format, value[..], owner[..], prev[..], link', all, tag, |tag|)
      ensures if changed then 0 <= cut < |link| && OnCycle(link, all, cut) && link' == link[cut := format.EofMark()] else link' == link
      ensures if changed then head in all && owner[head] == Nobody && prev[head] == 0
              else forall i :: i in all ==> owner[i] == Dummy
      ensures forall i :: 0 <= i < value.Length && value[i] != old(value[i]) ==> i in all && value[i] == format.EofMark()
    {
      hide Tagging, OnCycle;
      link', head, cut := link, 0, 0;
      var n := value.Length;
      TagFacts(format, value[..], owner[..], prev[..], link, all, tag, |tag|);
      for i := 2 to n
        invariant value[..] == old(value[..]) && prev[..] == old(prev[..])
        invariant forall j :: 2 <= j < i && j in all ==> owner[j] == Dummy
      {
        if i in all && owner[i] == Nobody {
          OrphanEntry(format, value[..], owner[..], prev[..], link, all, tag, |tag|, i);
        }
        if value[i] != 0 && !format.IsBad(value[i]) && owner[i] == Nobody {
          OrphanIsMember(format, value[..], owner[..], prev[..], link, all, tag, |tag|, i);
          LeftoverIsOnCycle(format, value[..], owner[..], prev[..], link, all, tag, i);
          LeftoverComesBack(format, value[..], owner[..], prev[..], link, all, tag, i);
          var next := value[i];
          if prev[next] == 0 {
            assert false;
          }
          BreakAt(format, value[..], owner[..], prev[..], link, all, tag, i);
          prev[next] := prev[next] - 1;
          SetEof(i);
          link' := link[i := format.EofMark()];
          return true, link', next, i;
        }
      }
      changed := false;
    }

    /** Everything up to the recovery of files: afterwards every orphan is tagged. */
    method TagAll() returns (ghost all: set<int>, ghost link: seq<nat>, ghost tag: seq<int>)
      requires Shaped() && GoodTable(format, value[..])
      requires forall i :: 2 <= i < owner.Length ==> owner[i] != Dummy
      modifies value, owner, prev
      ensures all == Orphans(format, old(value[..]), old(owner[..]))
      ensures Tagging(format, value[..], owner[..], prev[..], link, all, tag, |tag|)
      ensures forall i :: i in all ==> owner[i] == Dummy
      ensures forall i :: 0 <= i < value.Length && i !in all ==> owner[i] == old(owner[i])
      ensures forall i :: 0 <= i < value.Length && value[i] != old(value[i]) ==> i in all && value[i] == format.EofMark()
      ensures CutsJustified(format, old(value[..]), link, all)
    {
      hide Tagging, OnCycle;
      ghost var value0 := value[..];
      var n := value.Length;
      all := LinkOrphans();
      link := value[..];
      tag := [];
      var changed := true;
      ghost var first := true;
      ghost var head := 0;
      while changed
        invariant Tagging(format, value[..], owner[..], prev[..], link, all, tag, |tag|)
        invariant changed && !first ==> head in all && owner[head] == Nobody && prev[head] == 0
        invariant !changed ==> forall i :: i in all ==> owner[i] == Dummy
        invariant forall i :: 0 <= i < n && i !in all ==> owner[i] == old(owner[i])
        invariant forall i :: 0 <= i < n && value[i] != old(value[i]) ==> i in all && value[i] == format.EofMark()
        invariant CutsJustified(format, value0, link, all) && |link| <= format.MinBad()
        decreases |all| - |tag|, first, changed
      {
        TagFacts(format, value[..], owner[..], prev[..], link, all, tag, |tag|);
        ghost var before := tag;
        tag := TagFree(link, all, tag);
        TagFacts(format, value[..], owner[..], prev[..], link, all, tag, |tag|);
        TagBound(format, value[..], owner[..], prev[..], link, all, tag, |tag|);
        assert !first ==> head in tag && head !in before;
        ghost var cut;
        ghost var before' := link;
        changed, link, head, cut := BreakCycle(link, all, tag);
        if changed {
          CutOnCycle(format, value0, before', all, cut);
        }
        first := false;
      }
    }

    /** tag_free: walks from every orphan without predecessor, giving each cluster it meets to
        the dummy and cutting the chain where it runs into an already tagged one. */
    method TagFree(ghost link: seq<nat>, ghost all: set<int>, ghost tag0: seq<int>) returns (ghost tag: seq<int>)
      requires Shaped() && Tagging(format, value[..], owner[..], prev[..], link, all, tag0, |tag0|)
      modifies value, owner
      ensures Tagging(format, value[..], owner[..], prev[..], link, all, tag, |tag|)
      ensures tag0 <= tag
      ensures forall i :: i in all && owner[i] == Nobody ==> prev[i] != 0
      ensures forall i :: 0 <= i < value.Length && i !in all ==> value[i] == old(value[i]) && owner[i] == old(owner[i])
      ensures forall i :: 0 <= i < value.Length && old(owner[i]) != Nobody ==> owner[i] == old(owner[i])
      ensures forall i :: 0 <= i < value.Length && value[i] != old(value[i]) ==> value[i] == format.EofMark()
    {
      hide Tagging;
      tag := tag0;
      var n := value.Length;
      TagFacts(format, value[..], owner[..], prev[..], link, all, tag, |tag|);
      for i := 2 to n
        invariant Tagging(format, value[..], owner[..], prev[..], link, all, tag, |tag|)
        invariant tag0 <= tag
        invariant forall j :: 2 <= j < i && j in all && owner[j] == Nobody ==> prev[j] != 0
        invariant forall j :: 0 <= j < n && j !in all ==> value[j] == old(value[j]) && owner[j] == old(owner[j])
        invariant forall j :: 0 <= j < n && old(owner[j]) != Nobody ==> owner[j] == old(owner[j])
        invariant forall j :: 0 <= j < n && value[j] != old(value[j]) ==> value[j] == format.EofMark()
      {
        TagFacts(format, value[..], owner[..], prev[..], link, all, tag, |tag|);
        if i in all && owner[i] == Nobody {
          OrphanEntry(format, value[..], owner[..], prev[..], link, all, tag, |tag|, i);
        }
        if Allocated(format, value[i]) && owner[i] == Nobody && prev[i] == 0 {
          OrphanIsMember(format, value[..], owner[..], prev[..], link, all, tag, |tag|, i);
          tag := WalkFrom(i, link, all, tag);
          TagFacts(format, value[..], owner[..], prev[..], link, all, tag, |tag|);
        }
      }
    }

    /** The walk of tag_free from one chain head. */
    method WalkFrom(i: int, ghost link: seq<nat>, ghost all: set<int>, ghost tag0: seq<int>) returns (ghost tag: seq<int>)
      requires Shaped() && Tagging(format, value[..], owner[..], prev[..], link, all, tag0, |tag0|)
      requires i in all && owner[i] == Nobody && prev[i] == 0
      modifies value, owner
      ensures Tagging(format, value[..], owner[..], prev[..], link, all, tag, |tag|)
      ensures tag0 <= tag && i in tag
      ensures forall j :: 0 <= j < value.Length && (j !in all || old(owner[j]) == Dummy) ==> owner[j] == old(owner[j])
      ensures forall j :: 0 <= j < value.Length && j !in all ==> value[j] == old(value[j])
      ensures forall j :: 0 <= j < value.Length && value[j] != old(value[j]) ==> value[j] == format.EofMark()
    {
      hide Tagging;
      tag := tag0;
      var last := 0;
      var walk := i;
      ghost var done: nat := |tag|;
      ghost var left := all;
      TagFacts(format, value[..], owner[..], prev[..], link, all, tag, done);
      while walk > 0 && walk != -1
        invariant Tagging(format, value[..], owner[..], prev[..], link, all, tag, done)
        invariant tag0 <= tag
        invariant if last == 0 then walk == i && tag == tag0 && done == |tag| && owner[i] == Nobody
                  else i in tag && done + 1 == |tag| && tag[done] == last && IsCluster(value.Length, last) && value[last] == link[last]
                       && walk == (if format.IsEof(link[last]) then -1 else link[last]) && (walk != -1 ==> walk in all)
        invariant forall j :: 0 <= j < value.Length && (j !in all || old(owner[j]) == Dummy) ==> owner[j] == old(owner[j])
        invariant value[..] == old(value[..])
        invariant forall j :: j in all && owner[j] == Nobody ==> j in left
        decreases left
      {
        TagFacts(format, value[..], owner[..], prev[..], link, all, tag, done);
        if owner[walk] == Nobody {
          TagOne(format, value[..], owner[..], prev[..], link, all, tag, done, walk);
          owner[walk] := Dummy;
        } else if owner[walk] != Dummy {
          assert false;
        } else {
          ghost var before := value[..];
          SetEof(last);
          EndChain(format, before, owner[..], prev[..], link, all, tag, last, value[..]);
          return;
        }
        left := left - {walk};
        tag := tag + [walk];
        done := |tag| - 1;
        OrphanEntry(format, value[..], owner[..], prev[..], link, all, tag, done, walk);
        last := walk;
        walk := NextCluster(format, value[walk]);
      }
      EndChain(format, value[..], owner[..], prev[..], link, all, tag, last, value[..]);
    }
  
    /** Walks one recovered chain, adding up its size in the 32-bit directory field. */
    method MeasureChain(i: int, ghost link: seq<nat>, ghost all: set<int>, ghost tag: seq<int>, ghost h: nat)
      returns (size: nat, count: nat, ghost e: nat)
      requires Shaped() && Tagging(format, value[..], owner[..], prev[..], link, all, tag, |tag|)
      requires h < |tag| && tag[h] == i && prev[i] == 0
      ensures WholeChain(format, value[..], prev[..], tag, h, e)
      ensures count == e - h && size == SizeOf(count, clusterSize)
    {
      hide Tagging, HeadIndex, WholeChain, NextCluster, SizeOf, Walked;
      size, count, e := 0, 0, h;
      TagFacts(format, value[..], owner[..], prev[..], link, all, tag, |tag|);
      HeadOfChain(prev[..], tag, h);
      AddSize(0, clusterSize);
      WalkedNone(value[..], prev[..], tag, h);
      var walk := i;
      while walk > 0 && walk != -1
        invariant h <= e <= |tag| && count == e - h && size == SizeOf(count, clusterSize)
        invariant if walk == -1 then h < e && format.IsEof(value[tag[e - 1]]) else e < |tag| && walk == tag[e] && HeadIndex(prev[..], tag, e) == h
        invariant Walked(value[..], prev[..], tag, h, e, walk == -1)
        decreases |tag| - e
      {
        ChainStep(format, value[..], owner[..], prev[..], link, all, tag, e);
        WalkedOne(format, value[..], prev[..], tag, h, e);
        AddSize(count, clusterSize);
        size := (size + clusterSize) % 0x1_0000_0000;
        count := count + 1;
        walk := NextCluster(format, value[walk]);
        e := e + 1;
      }
      WalkedAll(value[..], prev[..], tag, h, e);
      EndOfWalk(format, value[..], owner[..], prev[..], link, all, tag, h, e);
    }

    /** The last loop: one directory entry for each chain head. */
    method RecoverFiles(ghost link: seq<nat>, ghost all: set<int>, ghost tag: seq<int>)
      returns (files: seq<RecoveredFile>, reclaimed: nat, ghost chains: seq<seq<int>>)
      requires Shaped() && Tagging(format, value[..], owner[..], prev[..], link, all, tag, |tag|)
      ensures Recovered(format, value[..], owner[..], prev[..], chains)
      ensures reclaimed == |Flatten(chains)| == |DummyOwned(owner[..])| && |files| == |chains|
      ensures forall m :: 0 <= m < |files| ==> files[m] == FileFor(fatBits, clusterSize, chains[m])
    {
      hide Tagging, Collected, Recovered, IsChain, CollectedHeads, WholeChain, Flatten;
      files, reclaimed, chains := [], 0, [];
      FlattenOne([], []);
      CollectionStart(format, value[..], owner[..], prev[..], link, all, tag);
      for i := 2 to value.Length
        invariant Collected(format, value[..], owner[..], prev[..], tag, chains, i)
        invariant reclaimed == |Flatten(chains)| && |files| == |chains|
        invariant forall m :: 0 <= m < |files| ==> 0 < |chains[m]| && 0 <= chains[m][0] && files[m] == FileFor(fatBits, clusterSize, chains[m])
      {
        if owner[i] == Dummy && prev[i] == 0 {
          ghost var h := IndexInTag(format, value[..], owner[..], prev[..], link, all, tag, i);
          var size, count;
          ghost var e;
          size, count, e := MeasureChain(i, link, all, tag, h);
          WholeChainFacts(format, value[..], owner[..], prev[..], link, all, tag, h, e);
          CollectOne(format, value[..], owner[..], prev[..], tag, chains, h, e);
          FlattenOne(chains, tag[h..e]);
          chains := chains + [tag[h..e]];
          files := files + [RecoveredFile(i % 0x1_0000, if fatBits == 32 then i / 0x1_0000 % 0x1_0000 else 0, size)];
          reclaimed := reclaimed + count;
        } else {
          CollectNothing(format, value[..], owner[..], prev[..], link, all, tag, chains, i);
        }
      }
      CollectionDone(format, value[..], owner[..], prev[..], link, all, tag, chains);
      RecoveredFacts(format, value[..], owner[..], prev[..], chains);
      CountRecovered(format, value[..], owner[..], prev[..], chains);
    }

    /** reclaim_file.  Afterwards every allocated cluster has an owner.  No entry is freed, entries
        of owned clusters are untouched, and an orphan's entry either stays or becomes an
        end-of-file mark.  The former orphans are exactly the clusters of the recovered chains,
        and the directory entries account for all of them. */
    method ReclaimFile() returns (files: seq<RecoveredFile>, reclaimed: nat, ghost chains: seq<seq<int>>)
      requires Shaped() && GoodTable(format, value[..])
      requires forall i :: 2 <= i < owner.Length ==> owner[i] != Dummy
      modifies value, owner, prev
      ensures forall i :: 2 <= i < value.Length && Allocated(format, value[i]) ==> owner[i] != Nobody
      ensures forall i :: 0 <= i < value.Length && owner[i] != old(owner[i]) ==> old(owner[i]) == Nobody && owner[i] == Dummy
      ensures forall i :: 2 <= i < value.Length ==> (owner[i] == Dummy <==> Orphan(format, old(value[..]), old(owner[..]), i))
      ensures forall i :: 0 <= i < value.Length && value[i] != old(value[i]) ==> owner[i] == Dummy && value[i] == format.EofMark()
      ensures forall i :: 0 <= i < value.Length && value[i] != old(value[i]) ==>
        CutNeeded(old(value[..]), value[..], Orphans(format, old(value[..]), old(owner[..])), i)
      ensures Recovered(format, value[..], owner[..], prev[..], chains)
      ensures reclaimed == |Orphans(format, old(value[..]), old(owner[..]))| && |files| == |chains|
      ensures forall m :: 0 <= m < |files| ==> files[m] == FileFor(fatBits, clusterSize, chains[m])
      ensures Numbered(fatBits, value.Length) ==> forall m :: 0 <= m < |files| ==> LeadsTo(format, value[..], fatBits, files[m], chains[m])
      ensures forall m :: 0 <= m < |files| ==> files[m].size == |chains[m]| * clusterSize % 0x1_0000_0000
    {
      hide Recovered, Tagging, Flatten, IsChain, CutNeeded, CutsJustified, LeadsTo;
      ghost var value0 := value[..];
      ghost var all, link, tag := TagAll();
      forall i | 0 <= i < value.Length && value[i] != value0[i] ensures CutNeeded(value0, value[..], all, i) {
        CutsAreNeeded(format, value0, value[..], owner[..], prev[..], link, all, tag, i);
      }
      TagFacts(format, value[..], owner[..], prev[..], link, all, tag, |tag|);
      forall i | 2 <= i < value.Length && Allocated(format, value[i]) && owner[i] == Nobody ensures false {
        OrphanIsMember(format, value[..], owner[..], prev[..], link, all, tag, |tag|, i);
      }
      files, reclaimed, chains := RecoverFiles(link, all, tag);
      assert DummyOwned(owner[..]) == Orphans(format, old(value[..]), old(owner[..]));
      RecoveredFacts(format, value[..], owner[..], prev[..], chains);
      if Numbered(fatBits, value.Length) {
        EntriesLead(format, value[..], owner[..], prev[..], fatBits, clusterSize, chains, files);
      }
    }
  }

  lemma CollectionStart(f: Format, value: seq<nat>, owner: seq<Owner>, prev: seq<int>,
                        link: seq<nat>, all: set<int>, tag: seq<int>)
    requires Tagging(f, value, owner, prev, link, all, tag, |tag|)
    ensures Collected(f, value, owner, prev, tag, [], 2)
  {
    TagFacts(f, value, owner, prev, link, all, tag, |tag|);
  }

  lemma IndexInTag(f: Format, value: seq<nat>, owner: seq<Owner>, prev: seq<int>,
                   link: seq<nat>, all: set<int>, tag: seq<int>, i: int) returns (h: nat)
    requires Tagging(f, value, owner, prev, link, all, tag, |tag|)
    requires IsCluster(|owner|, i) && owner[i] == Dummy
    ensures h < |tag| && tag[h] == i && Distinct(tag)
  {
    assert i in tag;
    h :| 0 <= h < |tag| && tag[h] == i;
  }

  lemma WholeChainFacts(f: Format, value: seq<nat>, owner: seq<Owner>, prev: seq<int>,
                        link: seq<nat>, all: set<int>, tag: seq<int>, h: nat, e: nat)
    requires Tagging(f, value, owner, prev, link, all, tag, |tag|)
    requires WholeChain(f, value, prev, tag, h, e)
    ensures h < e <= |tag| && Distinct(tag)
  {}

  lemma FlattenOne(chains: seq<seq<int>>, path: seq<int>)
    ensures Flatten(chains + [path]) == Flatten(chains) + path
    ensures Flatten([]) == []
  {
    assert (chains + [path])[..|chains|] == chains;
  }

  lemma RecoveredFacts(f: Format, value: seq<nat>, owner: seq<Owner>, prev: seq<int>, chains: seq<seq<int>>)
    requires Recovered(f, value, owner, prev, chains)
    ensures forall m :: 0 <= m < |chains| ==> 0 < |chains[m]| && 0 <= chains[m][0]
  {}

  ghost function DummyOwned(owner: seq<Owner>): set<int> {
    set i | 2 <= i < |owner| && owner[i] == Dummy
  }

  /** The recovered clusters are counted once each. */
  lemma CountRecovered(f: Format, value: seq<nat>, owner: seq<Owner>, prev: seq<int>, chains: seq<seq<int>>)
    requires Recovered(f, value, owner, prev, chains)
    ensures |Flatten(chains)| == |DummyOwned(owner)|
  {
    hide IsChain, CollectedHeads, Flatten;
    DistinctSize(Flatten(chains));
    assert DummyOwned(owner) == set x | x in Flatten(chains);
  }

  lemma AddSize(count: nat, clusterSize: nat)
    ensures SizeOf(count + 1, clusterSize) == (SizeOf(count, clusterSize) + clusterSize) % 0x1_0000_0000 && SizeOf(0, clusterSize) == 0
  {
    AddTimes(count, 1, clusterSize);
    AddMod(count * clusterSize, clusterSize);
  }

  lemma AddMod(a: nat, b: nat)
    ensures (a % 0x1_0000_0000 + b) % 0x1_0000_0000 == (a + b) % 0x1_0000_0000
  {}

  function TotalSize(files: seq<RecoveredFile>): nat {
    if files == [] then 0 else TotalSize(files[..|files| - 1]) + files[|files| - 1].size
  }

  /** The sizes of the recovered files add up to the recovered clusters if and only if no file is
      too large for its 32-bit size field; otherwise they add up to less. */
  lemma {:induction false} SizesAddUp(fatBits: nat, clusterSize: nat, chains: seq<seq<int>>, files: seq<RecoveredFile>)
    requires |files| == |chains| && forall m :: 0 <= m < |chains| ==> 0 < |chains[m]| && 0 <= chains[m][0]
    requires forall m :: 0 <= m < |files| ==> files[m] == FileFor(fatBits, clusterSize, chains[m])
    ensures TotalSize(files) <= |Flatten(chains)| * clusterSize
    ensures TotalSize(files) == |Flatten(chains)| * clusterSize
       <==> forall m :: 0 <= m < |chains| ==> |chains[m]| * clusterSize < 0x1_0000_0000
  {
    hide SizeOf;
    if chains != [] {
      var n := |chains| - 1;
      SizesAddUp(fatBits, clusterSize, chains[..n], files[..n]);
      SizeLost(|chains[n]|, clusterSize);
      assert files[n].size == SizeOf(|chains[n]|, clusterSize);
      AddTimes(|Flatten(chains[..n])|, |chains[n]|, clusterSize);
      assert forall m :: 0 <= m < n ==> chains[..n][m] == chains[m];
    }
  }

  lemma SizeLost(count: nat, clusterSize: nat)
    ensures SizeOf(count, clusterSize) <= count * clusterSize
    ensures SizeOf(count, clusterSize) == count * clusterSize <==> count * clusterSize < 0x1_0000_0000
  {
    assert 0 <= count * clusterSize;
  }

  // ----- a single chain -----

  /** A table in which clusters 2 to n + 1 form one chain. */
  function StraightTable(f: Format, n: nat): (r: seq<nat>)
    ensures |r| == n + 2
    ensures forall i :: 2 <= i < n + 1 ==> r[i] == i + 1
    ensures 0 < n ==> r[n + 1] == f.EofMark()
  {
    seq(n + 2, i requires 0 <= i < n + 2 => StraightEntry(f, n, i))
  }

  function StraightEntry(f: Format, n: nat, i: nat): nat {
    if i < 2 then 0 else if i == n + 1 then f.EofMark() else i + 1
  }

  lemma StraightIsGood(f: Format, n: nat)
    requires n + 2 <= f.MinBad()
    ensures GoodTable(f, StraightTable(f, n))
    ensures forall i :: 2 <= i < n + 2 ==> Allocated(f, StraightTable(f, n)[i])
  {}

  /** Along a cycle of the straight table each cluster would be one above the last. */
  lemma {:induction false} StraightSteps(f: Format, n: nat, all: set<int>, path: seq<int>, i: int, k: nat)
    requires 0 < n && n + 2 <= f.MinBad() && (forall j :: j in all ==> 2 <= j < n + 2)
    requires IsCycle(StraightTable(f, n), all, path, i) && k < |path|
    ensures path[k] == path[0] + k
  {
    if 0 < k {
      StraightSteps(f, n, all, path, i, k - 1);
      assert StraightTable(f, n)[path[k - 1]] == path[k];
    }
  }

  lemma StraightNoCycle(f: Format, n: nat, all: set<int>, i: int)
    requires 0 < n && n + 2 <= f.MinBad() && (forall j :: j in all ==> 2 <= j < n + 2)
    ensures !OnCycle(StraightTable(f, n), all, i)
  {
    if OnCycle(StraightTable(f, n), all, i) {
      var path :| IsCycle(StraightTable(f, n), all, path, i);
      StraightSteps(f, n, all, path, i, |path| - 1);
    }
  }

  /** No cut of the straight table is needed, so none is made. */
  lemma StraightKept(f: Format, n: nat, value: seq<nat>, all: set<int>, i: int)
    requires 0 < n && n + 2 <= f.MinBad() && |value| == n + 2 && 2 <= i < n + 2
    requires forall j :: j in all <==> 2 <= j < n + 2
    requires forall j :: 0 <= j < |value| && value[j] != StraightTable(f, n)[j] ==>
      value[j] == f.EofMark() && CutNeeded(StraightTable(f, n), value, all, j)
    ensures value[i] == StraightTable(f, n)[i]
  {
    StraightNoCycle(f, n, all, i);
  }

  lemma {:induction false} InFlatten(chains: seq<seq<int>>, m: nat, k: nat) returns (j: nat)
    requires m < |chains| && k < |chains[m]|
    ensures j < |Flatten(chains)| && Flatten(chains)[j] == chains[m][k]
    ensures j + (|chains[m]| - k) <= |Flatten(chains[..m + 1])| <= |Flatten(chains)|
    ensures j == |Flatten(chains[..m])| + k
  {
    var n := |chains| - 1;
    assert chains[..n + 1] == chains;
    if m == n {
      j := |Flatten(chains[..n])| + k;
    } else {
      assert chains[..n][..m + 1] == chains[..m + 1] && chains[..n][..m] == chains[..m];
      j := InFlatten(chains[..n], m, k);
    }
  }

  /** Two chains cannot both end at the same cluster. */
  lemma OneChain(chains: seq<seq<int>>, last: int)
    requires Distinct(Flatten(chains))
    requires forall m :: 0 <= m < |chains| ==> 0 < |chains[m]| && chains[m][|chains[m]| - 1] == last
    ensures |chains| <= 1
  {
    if 2 <= |chains| {
      var j := InFlatten(chains, 0, |chains[0]| - 1);
      var k := InFlatten(chains, 1, |chains[1]| - 1);
    }
  }

  /** What reclaim_file makes of it: one chain of all n clusters. */
  lemma StraightRecovered(f: Format, n: nat, value: seq<nat>, owner: seq<Owner>, prev: seq<int>, chains: seq<seq<int>>)
    requires 0 < n && n + 2 <= f.MinBad() && |value| == n + 2
    requires forall i :: 2 <= i < n + 2 ==> value[i] == StraightTable(f, n)[i]
    requires Recovered(f, value, owner, prev, chains) && |Flatten(chains)| == n
    ensures |chains| == 1 && |chains[0]| == n
  {
    hide CollectedHeads;
    forall m | 0 <= m < |chains| ensures 0 < |chains[m]| && chains[m][|chains[m]| - 1] == n + 1 {
      assert IsChain(f, value, chains[m]);
    }
    OneChain(chains, n + 1);
    assert chains != [] && chains[..0] == [];
  }

  /** reclaim_file on a table with one chain and no file: it leaves the table alone and makes one
      file of all clusters. */
  method ReclaimStraight(fs: DosFs, n: nat) returns (files: seq<RecoveredFile>, reclaimed: nat)
    requires fs.Shaped() && 0 < n && n + 2 <= fs.format.MinBad() && fs.value[..] == StraightTable(fs.format, n)
    requires forall i :: 0 <= i < fs.owner.Length ==> fs.owner[i] == Nobody
    modifies fs.value, fs.owner, fs.prev
    ensures |files| == 1 && files[0].size == SizeOf(n, fs.clusterSize) && reclaimed == n
    ensures forall i :: 2 <= i < n + 2 ==> fs.value[i] == StraightTable(fs.format, n)[i]
  {
    hide Recovered, StraightTable, CutNeeded, SizeOf;
    StraightIsGood(fs.format, n);
    ghost var all := Orphans(fs.format, fs.value[..], fs.owner[..]);
    ghost var chains;
    files, reclaimed, chains := fs.ReclaimFile();
    CountStraight(n, all);
    forall i | 2 <= i < n + 2 ensures fs.value[i] == StraightTable(fs.format, n)[i] {
      StraightKept(fs.format, n, fs.value[..], all, i);
    }
    CountRecovered(fs.format, fs.value[..], fs.owner[..], fs.prev[..], chains);
    assert DummyOwned(fs.owner[..]) == all;
    StraightRecovered(fs.format, n, fs.value[..], fs.owner[..], fs.prev[..], chains);
  }

  lemma CountStraight(n: nat, all: set<int>)
    requires forall j :: j in all <==> 2 <= j < n + 2
    ensures |all| == n
  {
    assert all == UpTo(n + 1) - {1};
  }

  /** A chain of 65536 clusters of 64 KiB has 2^32 bytes, and the file that is made of it has size
      0. */
  method ReclaimLongChain(fs: DosFs) returns (files: seq<RecoveredFile>, reclaimed: nat)
    requires fs.Shaped() && fs.format == Format(0x0fff_fff0, false) && fs.clusterSize == 0x1_0000
    requires fs.value[..] == StraightTable(fs.format, 0x1_0000) && forall i :: 0 <= i < fs.owner.Length ==> fs.owner[i] == Nobody
    modifies fs.value, fs.owner, fs.prev
    ensures |files| == 1 && files[0].size == 0 && reclaimed * fs.clusterSize == 0x1_0000_0000
  {
    hide StraightTable;
    files, reclaimed := ReclaimStraight(fs, 0x1_0000);
  }

  lemma AddTimes(a: nat, b: nat, c: nat)
    ensures (a + b) * c == a * c + b * c
  {}
}
