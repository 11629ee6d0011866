/** Facts about finite sets that the counting arguments need: sizes of subsets and of images, the
    pigeonhole principle, and that an injective map of a finite set into itself is onto. */
module Sets {

  lemma PickMember<T>(s: set<T>) returns (x: T)
    requires s != {}
    ensures x in s
  {
    x :| x in s;
  }

  lemma {:induction false} SubsetSize<T>(a: set<T>, b: set<T>)
    requires a <= b
    ensures |a| <= |b|
    ensures |a| == |b| ==> a == b
  {
    if a == {} {
    } else {
      var x :| x in a;
      SubsetSize(a - {x}, b - {x});
    }
  }

  /** The set of the first n numbers from 1. */
  ghost function UpTo(n: nat): (r: set<int>)
    ensures |r| == n && forall v :: v in r <==> 1 <= v <= n
  {
    if n == 0 then {} else UpTo(n - 1) + {n}
  }

  lemma {:induction false} DistinctSize<T>(s: seq<T>)
    requires forall i, j :: 0 <= i < j < |s| ==> s[i] != s[j]
    ensures |set x | x in s| == |s|
  {
    if s == [] {
    } else {
      var n := |s| - 1;
      DistinctSize(s[..n]);
      assert (set x | x in s) == (set x | x in s[..n]) + {s[n]} by {
        assert s == s[..n] + [s[n]];
      }
    }
  }

  /** A pigeonhole: n distinct values in 1..n are all of 1..n. */
  lemma Pigeonhole(s: seq<int>, v: int)
    requires forall i :: 0 <= i < |s| ==> 1 <= s[i] <= |s|
    requires forall i, j :: 0 <= i < j < |s| ==> s[i] != s[j]
    requires 1 <= v <= |s|
    ensures v in s
  {
    var elements := set x | x in s;
    var all := UpTo(|s|);
    DistinctSize(s);
    assert elements <= all;
    if v !in s {
      assert elements <= all - {v};
      SubsetSize(elements, all - {v});
    }
  }

  ghost predicate Injective(s: set<int>, g: map<int, int>)
    requires s <= g.Keys
  {
    forall x, y {:trigger g[x], g[y]} :: x in s && y in s && g[x] == g[y] ==> x == y
  }

  ghost function Image(s: set<int>, g: map<int, int>): (r: set<int>)
    requires s <= g.Keys
  {
    set x | x in s :: g[x]
  }

  lemma {:induction false} InjectiveImageSize(s: set<int>, g: map<int, int>)
    requires s <= g.Keys && Injective(s, g)
    ensures |Image(s, g)| == |s|
  {
    if s == {} {
    } else {
      var x := PickMember(s);
      InjectiveImageSize(s - {x}, g);
      assert Image(s, g) == Image(s - {x}, g) + {g[x]};
      assert g[x] !in Image(s - {x}, g);
    }
  }

  /** An injective map from a finite set into itself is onto. */
  lemma InjectiveIsOnto(s: set<int>, g: map<int, int>, y: int) returns (x: int)
    requires g.Keys == s && y in s && Injective(s, g)
    requires forall a {:trigger g[a]} :: a in s ==> g[a] in s
    ensures x in s && g[x] == y
  {
    InjectiveImageSize(s, g);
    ImageInside(s, g);
    SubsetSize(Image(s, g), s);
    x := MemberOfImage(s, g, y);
  }

  lemma ImageInside(s: set<int>, g: map<int, int>)
    requires g.Keys == s
    requires forall a {:trigger g[a]} :: a in s ==> g[a] in s
    ensures Image(s, g) <= s
  {}

  lemma MemberOfImage(s: set<int>, g: map<int, int>, y: int) returns (x: int)
    requires g.Keys == s && y in Image(s, g)
    ensures x in s && g[x] == y
  {
    x :| x in s && g[x] == y;
  }
}
