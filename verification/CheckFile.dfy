/** check_file and truncate_file of dosfsck's check.c, non-interactive: a file's chain and entry
    are made to agree. */
module CheckFile {
  import opened FatChains

  /** A directory entry in memory.  offset is 0 only for the FAT32 root directory. */
  class DosFile {
    const id: nat
    const offset: nat
    const isDirectory: bool
    var start: nat
    var size: nat
    var deleted: bool
  }

  /** path follows the links from its first cluster as far as they go, without repetition: its
      last cluster's entry is no link. */
  ghost predicate IsPath(value: seq<nat>, path: seq<int>) {
    && (forall k :: 0 <= k < |path| ==> IsCluster(|value|, path[k]))
    && (forall k :: 0 <= k < |path| - 1 ==> value[path[k]] == path[k + 1])
    && (0 < |path| ==> !IsCluster(|value|, value[path[|path| - 1]]))
    && (forall j, k :: 0 <= j < k < |path| ==> path[j] != path[k])
  }

  /** The file's clusters are exactly those of `chain`, which starts where the entry says and is
      properly ended. */
  ghost predicate OwnsChain(f: Format, value: seq<nat>, owner: seq<Owner>, id: nat, start: nat, chain: seq<int>) {
    && |owner| == |value|
    && (if chain == [] then start == 0 else chain[0] == start && IsLinked(f, value, chain))
    && (forall i :: 0 <= i < |owner| ==> (owner[i] == File(id) <==> i in chain))
  }

  ghost predicate IsLinked(f: Format, value: seq<nat>, chain: seq<int>) {
    && 0 < |chain|
    && (forall k :: 0 <= k < |chain| ==> IsCluster(|value|, chain[k]))
    && (forall k :: 0 <= k < |chain| - 1 ==> value[chain[k]] == chain[k + 1])
    && f.IsEof(value[chain[|chain| - 1]])
  }

  /** A non-directory's size needs exactly its clusters; a directory has size 0. */
  predicate SizeFits(isDirectory: bool, size: nat, clusters: nat, clusterSize: nat) {
    if isDirectory then size == 0
    else if clusters == 0 then size == 0
    else (clusters - 1) * clusterSize < size <= clusters * clusterSize
  }

  lemma LinkIsNotBad(f: Format, value: seq<nat>, path: seq<int>, k: nat)
    requires GoodTable(f, value) && IsPath(value, path) && k < |path|
    ensures k < |path| - 1 ==> !f.IsBad(value[path[k]]) && !f.IsEof(value[path[k]]) && value[path[k]] == path[k + 1]
    ensures k == |path| - 1 ==> value[path[k]] == 0 || f.IsBad(value[path[k]]) || f.IsEof(value[path[k]])
    ensures IsCluster(|value|, path[k])
  {
    if k < |path| - 1 {
      assert value[path[k]] == path[k + 1] && IsCluster(|value|, path[k + 1]);
    } else {
      assert GoodEntry(f, |value|, value[path[k]]);
    }
  }

  /** The first k clusters of a path, once ended and owned, are the file's chain. */
  lemma OwnsPrefix(f: Format, v0: seq<nat>, value: seq<nat>, owner: seq<Owner>, id: nat, start: nat, path: seq<int>, k: nat)
    requires IsPath(v0, path) && k <= |path| && |value| == |v0| == |owner|
    requires start == if k == 0 then 0 else path[0]
    requires forall j :: 0 <= j < k - 1 ==> value[path[j]] == v0[path[j]]
    requires 0 < k ==> f.IsEof(value[path[k - 1]])
    requires forall i :: 0 <= i < |owner| ==> (owner[i] == File(id) <==> i in path[..k])
    ensures OwnsChain(f, value, owner, id, start, path[..k])
  {
    var chain := path[..k];
    if 0 < k {
      forall j | 0 <= j < |chain| - 1 ensures value[chain[j]] == chain[j + 1] {
        assert v0[path[j]] == path[j + 1];
      }
    }
  }

  lemma PathFacts(value: seq<nat>, path: seq<int>)
    requires IsPath(value, path)
    ensures forall k :: 0 <= k < |path| ==> IsCluster(|value|, path[k])
  {}

  /** The first k clusters of the path belong to the file, and nothing else has changed. */
  ghost predicate Claimed(before: seq<Owner>, owner: seq<Owner>, id: nat, path: seq<int>, k: nat) {
    && |owner| == |before| && k <= |path|
    && (forall i :: 0 <= i < |owner| ==> owner[i] == if i in path[..k] then File(id) else before[i])
    && (forall i :: 0 <= i < |owner| ==> before[i] != File(id) && (i in path[..k] ==> before[i] == Nobody))
  }

  lemma ClaimedFacts(before: seq<Owner>, owner: seq<Owner>, id: nat, path: seq<int>, k: nat)
    requires Claimed(before, owner, id, path, k)
    ensures forall i :: 0 <= i < |owner| ==> (owner[i] == File(id) <==> i in path[..k])
    ensures |owner| == |before|
    ensures forall i :: 0 <= i < |owner| && owner[i] != before[i] ==> before[i] == Nobody && owner[i] == File(id)
  {}

  lemma ClaimOne(before: seq<Owner>, owner: seq<Owner>, id: nat, path: seq<int>, k: nat)
    requires Claimed(before, owner, id, path, k) && k < |path| && 0 <= path[k] < |owner| && owner[path[k]] == Nobody
    ensures Claimed(before, owner[path[k] := File(id)], id, path, k + 1)
  {
    assert path[..k + 1] == path[..k] + [path[k]];
  }

  lemma KeptPrefix(path: seq<int>, k: nat)
    requires 0 <= k <= |path|
    ensures forall j :: 0 <= j < k - 1 ==> path[j] in path[..k - 1]
  {}

  /** truncate_file has passed the first k clusters of the path: those behind the first `keep` are
      free, the last one kept ends the chain, and nothing else has changed. */
  ghost predicate Cut(v0: seq<nat>, value: seq<nat>, path: seq<int>, keep: nat, k: nat, eof: nat) {
    && |value| == |v0| && k <= |path|
    && (forall j :: 0 <= j < |path| && 0 <= path[j] < |v0| ==>
          value[path[j]] == if keep <= j < k then 0 else if j + 1 == keep <= k then eof else v0[path[j]])
    && (forall i :: 0 <= i < |v0| && i !in path ==> value[i] == v0[i])
  }

  lemma CutNothing(v0: seq<nat>, path: seq<int>, keep: nat, eof: nat)
    ensures Cut(v0, v0, path, keep, 0, eof)
  {}

  lemma CutAt(v0: seq<nat>, value: seq<nat>, path: seq<int>, keep: nat, k: nat, eof: nat)
    requires Cut(v0, value, path, keep, k, eof) && k < |path| && 0 <= path[k] < |v0|
    ensures |value| == |v0| && value[path[k]] == v0[path[k]]
  {}

  lemma CutOne(v0: seq<nat>, value: seq<nat>, path: seq<int>, keep: nat, k: nat, eof: nat)
    requires Cut(v0, value, path, keep, k, eof) && k < |path| && IsPath(v0, path)
    ensures |value| == |v0| && 0 <= path[k] < |v0|
    ensures keep <= k ==> Cut(v0, value[path[k] := 0], path, keep, k + 1, eof)
    ensures k + 1 == keep ==> Cut(v0, value[path[k] := eof], path, keep, k + 1, eof)
    ensures k + 1 < keep ==> Cut(v0, value, path, keep, k + 1, eof)
  {}

  lemma CutKeeps(v0: seq<nat>, value: seq<nat>, path: seq<int>, keep: nat, k: nat, eof: nat)
    requires Cut(v0, value, path, keep, k, eof) && IsPath(v0, path) && keep < |path|
    ensures |value| == |v0| && forall j :: 0 <= j < |path| ==> 0 <= path[j] < |v0|
    ensures forall j :: keep <= j < |path| ==> value[path[j]] == if j < k then 0 else v0[path[j]]
    ensures 0 < keep <= k ==> value[path[keep - 1]] == eof
    ensures forall i :: 0 <= i < |v0| && (i !in path || i in path[..if keep == 0 then 0 else keep - 1]) ==> value[i] == v0[i]
  {}

  /** Only the last cluster of a path can be a bad one. */
  lemma NoneBad(f: Format, value: seq<nat>, path: seq<int>)
    requires GoodTable(f, value) && IsPath(value, path)
    ensures forall k :: 0 <= k < |path| - 1 ==> !f.IsBad(value[path[k]])
  {
    forall k | 0 <= k < |path| - 1 ensures !f.IsBad(value[path[k]]) {
      LinkIsNotBad(f, value, path, k);
    }
  }

  /** A non-directory needs its k-th cluster only below its size. */
  predicate Needed(isDirectory: bool, size: nat, k: nat, clusterSize: nat) {
    isDirectory || k * clusterSize < size
  }

  /** The k-th cluster of the path is kept: its entry is neither free nor bad, the file needs it,
      and no other file has it. */
  predicate Kept(f: Format, value: seq<nat>, owner: seq<Owner>, isDirectory: bool, size: nat, clusterSize: nat, c: int, k: nat)
    requires 0 <= c < |value| == |owner|
  {
    value[c] != 0 && !f.IsBad(value[c]) && Needed(isDirectory, size, k, clusterSize) && owner[c] == Nobody
  }

  /** The first n clusters are kept, and the next one, if there is one, is not. */
  ghost predicate LongestKept(f: Format, value: seq<nat>, owner: seq<Owner>, isDirectory: bool, size: nat, clusterSize: nat, path: seq<int>, n: nat) {
    && |value| == |owner| && n <= |path| && (forall k :: 0 <= k < |path| ==> 0 <= path[k] < |value|)
    && (forall k :: 0 <= k < n ==> Kept(f, value, owner, isDirectory, size, clusterSize, path[k], k))
    && (n < |path| ==> !Kept(f, value, owner, isDirectory, size, clusterSize, path[n], n))
  }

  /** The entry of the first cluster behind the kept ones is sound, but the file does not need it. */
  predicate TooLong(f: Format, entry: nat, isDirectory: bool, size: nat, clusterSize: nat, n: nat) {
    entry != 0 && !f.IsBad(entry) && !Needed(isDirectory, size, n, clusterSize)
  }

  /** The rest of a chain is freed when it is sound but longer than the file needs; otherwise it
      is left as it was. */
  ghost predicate RestHandled(f: Format, before: seq<nat>, value: seq<nat>, isDirectory: bool, size: nat, clusterSize: nat, path: seq<int>, n: nat) {
    && |value| == |before| && (forall k :: 0 <= k < |path| ==> 0 <= path[k] < |value|)
    && forall k :: n <= k < |path| ==>
         value[path[k]] == if TooLong(f, before[path[n]], isDirectory, size, clusterSize, n) && !f.IsBad(before[path[k]]) then 0
                           else before[path[k]]
  }

  /** The program gives up: it is freeing the rest of a chain, and that ends in a bad cluster. */
  ghost predicate GivesUp(f: Format, value: seq<nat>, isDirectory: bool, size: nat, clusterSize: nat, path: seq<int>, n: nat) {
    && (forall k :: 0 <= k < |path| ==> 0 <= path[k] < |value|)
    && n < |path| && TooLong(f, value[path[n]], isDirectory, size, clusterSize, n) && f.IsBad(value[path[|path| - 1]])
  }

  /** A file of 512 bytes whose chain goes on over two more clusters, the last entry bad: one cluster
      is kept, and the program gives up on freeing the others. */
  lemma BadEndGivesUp()
    ensures var f, value, owner, path := Format(0xff0, false), [0, 0, 3, 4, 0xff7], seq(5, i => Nobody), [2, 3, 4];
      && GoodTable(f, value) && IsPath(value, path)
      && LongestKept(f, value, owner, false, 512, 512, path, 1) && GivesUp(f, value, false, 512, 512, path, 1)
  {}

  lemma KeptMeans(f: Format, value: seq<nat>, owner: seq<Owner>, isDirectory: bool, size: nat, clusterSize: nat, c: int, k: nat)
    requires 0 <= c < |value| == |owner|
    ensures Needed(isDirectory, size, k, clusterSize) <==> isDirectory || k * clusterSize < size
    ensures Kept(f, value, owner, isDirectory, size, clusterSize, c, k) <==>
      (value[c] != 0 && !f.IsBad(value[c]) && Needed(isDirectory, size, k, clusterSize) && owner[c] == Nobody)
    ensures TooLong(f, value[c], isDirectory, size, clusterSize, k) <==>
      (value[c] != 0 && !f.IsBad(value[c]) && !Needed(isDirectory, size, k, clusterSize))
  {}

  /** The clusters that have not been reached have the owners that they had. */
  lemma StillUnowned(before: seq<Owner>, owner: seq<Owner>, id: nat, value: seq<nat>, path: seq<int>, k: nat)
    requires Claimed(before, owner, id, path, k) && IsPath(value, path) && |value| == |owner|
    ensures forall j :: k <= j < |path| ==> 0 <= path[j] < |owner| && owner[path[j]] == before[path[j]]
  {}

  lemma ClaimedNone(before: seq<Owner>, id: nat, path: seq<int>)
    requires forall i :: 0 <= i < |before| ==> before[i] != File(id)
    ensures Claimed(before, before, id, path, 0)
  {}

  lemma NothingTaken(f: Format, value: seq<nat>, owner: seq<Owner>, id: nat, isDirectory: bool, size: nat, clusterSize: nat, path: seq<int>)
    requires |value| == |owner| && forall i :: 0 <= i < |owner| ==> owner[i] != File(id)
    ensures OwnsChain(f, value, owner, id, 0, [])
    ensures path == [] ==> LongestKept(f, value, owner, isDirectory, size, clusterSize, path, 0)
    ensures path == [] ==> RestHandled(f, value, value, isDirectory, size, clusterSize, path, 0)
    ensures path == [] ==> !GivesUp(f, value, isDirectory, size, clusterSize, path, 0)
  {}

  /** When the tool gives up, the size already fits the clusters kept. */
  lemma GivenUpSize(f: Format, value: seq<nat>, isDirectory: bool, size: nat, clusterSize: nat, path: seq<int>, n: nat)
    requires GivesUp(f, value, isDirectory, size, clusterSize, path, n)
    ensures !isDirectory && size <= n * clusterSize
  {}

  /** A directory's size plays no part. */
  lemma SizeUnused(f: Format, before: seq<nat>, value: seq<nat>, owner: seq<Owner>, isDirectory: bool, size: nat, other: nat,
                   clusterSize: nat, path: seq<int>, n: nat)
    requires isDirectory || size == other
    requires LongestKept(f, before, owner, isDirectory, size, clusterSize, path, n)
    ensures LongestKept(f, before, owner, isDirectory, other, clusterSize, path, n)
    ensures RestHandled(f, before, value, isDirectory, size, clusterSize, path, n)
       ==> RestHandled(f, before, value, isDirectory, other, clusterSize, path, n)
    ensures GivesUp(f, before, isDirectory, size, clusterSize, path, n) <==> GivesUp(f, before, isDirectory, other, clusterSize, path, n)
  {}

  lemma LastNeeded(size: nat, clusters: nat, clusterSize: nat)
    requires 0 < clusterSize && (0 < clusters ==> (clusters - 1) * clusterSize < size)
    ensures SizeFits(false, if size > clusters * clusterSize then clusters * clusterSize else size, clusters, clusterSize)
  {
    if clusters == 0 {
      assert clusters * clusterSize == 0;
    } else {
      assert clusters * clusterSize == (clusters - 1) * clusterSize + clusterSize;
    }
  }

  lemma NothingLeft(f: Format, value: seq<nat>, isDirectory: bool, size: nat, clusterSize: nat, path: seq<int>)
    requires IsPath(value, path)
    ensures RestHandled(f, value, value, isDirectory, size, clusterSize, path, |path|)
  {}

  /** The state after the chain has been ended behind the clusters taken. */
  lemma AfterCut(f: Format, v0: seq<nat>, value: seq<nat>, before: seq<Owner>, owner: seq<Owner>, id: nat, start: nat,
                 isDirectory: bool, size: nat, clusterSize: nat, path: seq<int>, k: nat)
    requires IsPath(v0, path) && k < |path| && |v0| == |owner| && Claimed(before, owner, id, path, k)
    requires start == if k == 0 then 0 else path[0]
    requires (forall j :: 0 <= j < |path| ==> 0 <= path[j] < |v0|) && value == if k == 0 then v0 else v0[path[k - 1] := f.EofMark()]
    requires !TooLong(f, v0[path[k]], isDirectory, size, clusterSize, k)
    ensures OwnsChain(f, value, owner, id, start, path[..k])
    ensures RestHandled(f, v0, value, isDirectory, size, clusterSize, path, k)
    ensures forall i :: 0 <= i < |v0| && i !in path ==> value[i] == v0[i]
  {
    hide TooLong, OwnsChain;
    ClaimedFacts(before, owner, id, path, k);
    OwnsPrefix(f, v0, value, owner, id, start, path, k);
  }

  /** The state after the rest of the chain has been freed. */
  lemma AfterTruncate(f: Format, v0: seq<nat>, value: seq<nat>, before: seq<Owner>, owner: seq<Owner>, id: nat, start: nat,
                      isDirectory: bool, size: nat, clusterSize: nat, path: seq<int>, k: nat)
    requires IsPath(v0, path) && k < |path| && |v0| == |owner| == |value| && Claimed(before, owner, id, path, k)
    requires start == if k == 0 then 0 else path[0]
    requires forall j :: 0 <= j < |path| ==> 0 <= path[j] < |v0|
    requires forall j :: k <= j < |path| ==> value[path[j]] == if f.IsBad(v0[path[j]]) then v0[path[j]] else 0
    requires 0 < k ==> value[path[k - 1]] == f.EofMark()
    requires forall i :: 0 <= i < |v0| && (i !in path || i in path[..if k == 0 then 0 else k - 1]) ==> value[i] == v0[i]
    requires TooLong(f, v0[path[k]], isDirectory, size, clusterSize, k)
    ensures OwnsChain(f, value, owner, id, start, path[..k])
    ensures RestHandled(f, v0, value, isDirectory, size, clusterSize, path, k)
  {
    hide TooLong, OwnsChain;
    ClaimedFacts(before, owner, id, path, k);
    KeptPrefix(path, k);
    OwnsPrefix(f, v0, value, owner, id, start, path, k);
  }

  class Checker {
    const format: Format
    const clusterSize: nat
    const value: array<nat>
    const owner: array<Owner>

    ghost predicate Valid()
      reads value
    {
      && value.Length == owner.Length && 2 <= value.Length && 0 < clusterSize
      && GoodTable(format, value[..])
    }

    /** truncate_file: keeps the first `keep` clusters of the chain and frees the rest.  dies
        when the rest runs into a bad cluster. */
    method TruncateFile(file: DosFile, keep: nat, ghost path: seq<int>) returns (died: bool)
      requires Valid() && 0 < |path| && keep < |path| && IsPath(value[..], path) && path[0] == file.start
      requires file.offset != 0
      modifies value, file`start
      ensures file.start == if keep == 0 then 0 else old(file.start)
      ensures died <==> format.IsBad(old(value[path[|path| - 1]]))
      ensures forall k :: keep <= k < |path| ==> value[path[k]] == if format.IsBad(old(value[path[k]])) then old(value[path[k]]) else 0
      ensures 0 < keep ==> value[path[keep - 1]] == format.EofMark()
      ensures forall i :: 0 <= i < value.Length && (i !in path || i in path[..if keep == 0 then 0 else keep - 1]) ==> value[i] == old(value[i])
    {
      hide IsPath, Cut;
      var walk: int := file.start;
      var clusters := keep;
      var deleting := clusters == 0;
      if deleting {
        file.start := 0;
      }
      ghost var k := 0;
      ghost var v0 := value[..];
      CutNothing(v0, path, keep, format.EofMark());
      PathFacts(v0, path);
      while walk > 0 && walk != -1
        invariant 0 <= k <= |path|
        invariant if k < |path| then walk == path[k] else (walk == -1 || walk == 0) && !format.IsBad(v0[path[|path| - 1]])
        invariant file.start == if keep == 0 then 0 else old(file.start)
        invariant deleting <==> keep <= k
        invariant k <= keep ==> clusters == keep - k
        invariant Cut(v0, value[..], path, keep, k, format.EofMark())
        decreases |path| - k
      {
        LinkIsNotBad(format, v0, path, k);
        CutAt(v0, value[..], path, keep, k, format.EofMark());
        CutOne(v0, value[..], path, keep, k, format.EofMark());
        if format.IsBad(value[walk]) {
          NoneBad(format, v0, path);
          CutKeeps(v0, value[..], path, keep, k, format.EofMark());
          return true;
        }
        var next: int := if format.IsEof(value[walk]) then -1 else value[walk];
        if deleting {
          value[walk] := 0;
        } else {
          clusters := clusters - 1;
          deleting := clusters == 0;
          if deleting {
            value[walk] := format.EofMark();
          }
        }
        k := k + 1;
        walk := next;
      }
      NoneBad(format, v0, path);
      CutKeeps(v0, value[..], path, keep, k, format.EofMark());
      died := false;
    }

    /** check_file for an entry that is neither the root directory nor a dot entry.  The entry ends
        up owning exactly a prefix of its old chain, properly ended, with a size that needs exactly
        those clusters; so it does when the tool gives up on a bad cluster while truncating. */
    method CheckFile(file: DosFile, ghost path: seq<int>) returns (died: bool, restart: bool, ghost chain: seq<int>)
      requires Valid() && file.offset != 0 && file.size < 0x1_0000_0000
      requires if IsCluster(value.Length, file.start) then IsPath(value[..], path) && 0 < |path| && path[0] == file.start
               else path == [] && (file.start == 0 || value.Length <= file.start)
      requires forall i :: 0 <= i < owner.Length ==> owner[i] != File(file.id)
      modifies value, owner, file
      ensures !restart
      ensures file.deleted <==> old(file.deleted) || (file.isDirectory && old(file.start) == 0)
      ensures died <==> GivesUp(format, old(value[..]), file.isDirectory, old(file.size), clusterSize, path, |chain|)
      ensures chain <= path && OwnsChain(format, value[..], owner[..], file.id, file.start, chain)
      ensures SizeFits(file.isDirectory, file.size, |chain|, clusterSize)
      ensures LongestKept(format, old(value[..]), old(owner[..]), file.isDirectory, old(file.size), clusterSize, path, |chain|)
      ensures RestHandled(format, old(value[..]), value[..], file.isDirectory, old(file.size), clusterSize, path, |chain|)
      ensures !file.isDirectory ==>
        file.size == if old(file.size) > |chain| * clusterSize then |chain| * clusterSize else old(file.size)
      ensures forall i :: 0 <= i < owner.Length && owner[i] != old(owner[i]) ==> old(owner[i]) == Nobody && owner[i] == File(file.id)
      ensures forall i :: 0 <= i < value.Length && i !in path ==> value[i] == old(value[i])
    {
      hide OwnsChain, LongestKept, RestHandled, GoodTable, GivesUp;
      died, restart, chain := false, false, [];
      NothingTaken(format, value[..], owner[..], file.id, file.isDirectory, file.size, clusterSize, path);
      if file.isDirectory {
        if file.size != 0 {
          file.size := 0;
        }
        if file.start == 0 {
          file.deleted := true;
          return;
        }
      }
      if value.Length <= file.start {
        file.start := 0;
      }
      ghost var size := file.size;
      var clusters;
      died, clusters := ClaimChain(file, path);
      SizeUnused(format, old(value[..]), value[..], old(owner[..]), file.isDirectory, size, old(file.size), clusterSize, path, clusters);
      chain := path[..clusters];
      if died {
        GivenUpSize(format, old(value[..]), file.isDirectory, file.size, clusterSize, path, clusters);
        LastNeeded(file.size, clusters, clusterSize);
        return;
      }
      if !file.isDirectory {
        LastNeeded(file.size, clusters, clusterSize);
        if file.size > clusters * clusterSize {
          file.size := clusters * clusterSize;
        }
      }
    }

    /** The loop of check_file: takes clusters as long as they are sound, needed and unowned, and
        ends the chain after the last one taken. */
    method ClaimChain(file: DosFile, ghost path: seq<int>) returns (died: bool, clusters: nat)
      requires Valid() && file.offset != 0
      requires IsPath(value[..], path) && file.start == if path == [] then 0 else path[0]
      requires forall i :: 0 <= i < owner.Length ==> owner[i] != File(file.id)
      modifies value, owner, file`start
      ensures clusters <= |path|
      ensures died <==> GivesUp(format, old(value[..]), file.isDirectory, file.size, clusterSize, path, clusters)
      ensures OwnsChain(format, value[..], owner[..], file.id, file.start, path[..clusters])
      ensures !file.isDirectory && 0 < clusters ==> (clusters - 1) * clusterSize < file.size
      ensures LongestKept(format, old(value[..]), old(owner[..]), file.isDirectory, file.size, clusterSize, path, clusters)
      ensures RestHandled(format, old(value[..]), value[..], file.isDirectory, file.size, clusterSize, path, clusters)
      ensures forall i :: 0 <= i < owner.Length && owner[i] != old(owner[i]) ==> old(owner[i]) == Nobody && owner[i] == File(file.id)
      ensures forall i :: 0 <= i < value.Length && i !in path ==> value[i] == old(value[i])
    {
      hide OwnsChain, IsPath, Kept, TooLong, Needed, Claimed, RestHandled, GoodTable, Format.IsBad, Format.IsEof, Format.EofMark;
      died, clusters := false, 0;
      ghost var o0, size, dir := owner[..], file.size, file.isDirectory;
      var prev := 0;
      var curr: int := if file.start != 0 then file.start else -1;
      ghost var v0 := value[..];
      PathFacts(v0, path);
      ClaimedNone(o0, file.id, path);
      while curr != -1
        invariant clusters <= |path|
        invariant value[..] == v0 && file.size == size
        invariant forall k :: 0 <= k < clusters ==> Kept(format, v0, o0, dir, size, clusterSize, path[k], k)
        invariant file.start == if path == [] then 0 else path[0]
        invariant curr == if clusters < |path| then path[clusters] else -1
        invariant 0 < clusters == |path| ==> format.IsEof(v0[path[|path| - 1]])
        invariant prev == if clusters == 0 then 0 else path[clusters - 1]
        invariant Claimed(o0, owner[..], file.id, path, clusters)
        invariant !file.isDirectory && 0 < clusters ==> (clusters - 1) * clusterSize < file.size
        decreases |path| - clusters
      {
        LinkIsNotBad(format, v0, path, clusters);
        ClaimedFacts(o0, owner[..], file.id, path, clusters);
        StillUnowned(o0, owner[..], file.id, v0, path, clusters);
        KeptMeans(format, v0, o0, dir, size, clusterSize, path[clusters], clusters);
        if value[curr] == 0 || format.IsBad(value[curr]) {
          CutHere(file, prev, path, clusters);
          AfterCut(format, v0, value[..], o0, owner[..], file.id, file.start, dir, size, clusterSize, path, clusters);
          return;
        }
        if !file.isDirectory && file.size <= clusters * clusterSize {
          died := TruncateFile(file, clusters, path);
          AfterTruncate(format, v0, value[..], o0, owner[..], file.id, file.start, dir, size, clusterSize, path, clusters);
          return;
        }
        if owner[curr] != Nobody {
          // Another file has this cluster: the second one, this file, is truncated.
          CutHere(file, prev, path, clusters);
          AfterCut(format, v0, value[..], o0, owner[..], file.id, file.start, dir, size, clusterSize, path, clusters);
          return;
        }
        ClaimOne(o0, owner[..], file.id, path, clusters);
        owner[curr] := File(file.id);
        prev := curr;
        clusters := clusters + 1;
        curr := if format.IsEof(value[curr]) then -1 else value[curr];
      }
      ClaimedFacts(o0, owner[..], file.id, path, clusters);
      OwnsPrefix(format, v0, value[..], owner[..], file.id, file.start, path, clusters);
      NothingLeft(format, v0, dir, size, clusterSize, path);
    }

    /** Ends the file's chain after `prev`, or empties the entry when there is no cluster before. */
    method CutHere(file: DosFile, prev: int, ghost path: seq<int>, ghost k: nat)
      requires Valid() && k < |path| && IsPath(value[..], path) && path[0] == file.start
      requires prev == if k == 0 then 0 else path[k - 1]
      modifies value, file`start
      ensures file.start == if k == 0 then 0 else old(file.start)
      ensures value[..] == if k == 0 then old(value[..]) else old(value[..])[path[k - 1] := format.EofMark()]
      ensures forall j :: 0 <= j < k - 1 ==> value[path[j]] == old(value[path[j]])
    {
      if prev != 0 {
        value[prev] := format.EofMark();
      } else {
        file.start := 0;
      }
    }
  }
}
