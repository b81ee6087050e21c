/** Intrusive lists as sequences: membership, unlinking, absence of duplicates. */
module Lists {

  ghost predicate NoDup<T>(s: seq<T>) {
    forall i, j :: 0 <= i < j < |s| ==> s[i] != s[j]
  }

  /** The list after `list_del` of one node. */
  function Without<T(==,!new)>(s: seq<T>, b: T): (r: seq<T>)
    ensures forall x :: x in r <==> x in s && x != b
    ensures |r| <= |s|
  {
    if s == [] then []
    else if s[0] == b then Without(s[1..], b)
    else [s[0]] + Without(s[1..], b)
  }

  lemma {:induction false} WithoutNoDup<T(!new)>(s: seq<T>, b: T)
    requires NoDup(s)
    ensures NoDup(Without(s, b))
  {
    if s != [] {
      WithoutNoDup(s[1..], b);
      var r := Without(s[1..], b);
      forall i | 0 <= i < |r|
        ensures r[i] != s[0]
      {
        assert r[i] in r;
      }
    }
  }

  lemma {:induction false} NoDupSize<T>(s: seq<T>)
    requires NoDup(s)
    ensures |set x | x in s| == |s|
  {
    if s != [] {
      NoDupSize(s[1..]);
      assert (set x | x in s) == (set x | x in s[1..]) + {s[0]};
    }
  }

  function Upto(n: nat): (r: set<nat>)
    ensures |r| == n && forall x: nat :: x in r <==> x < n
  {
    if n == 0 then {} else Upto(n - 1) + {n - 1}
  }

  /** A duplicate-free list of fewer than n numbers misses some number below n. */
  lemma SomeMissing(s: seq<nat>, n: nat)
    requires NoDup(s) && |s| < n
    ensures exists x: nat :: x < n && x !in s
  {
    NoDupSize(s);
    var members := set x | x in s;
    if forall x: nat :: x < n ==> x in s {
      assert Upto(n) <= members;
      SubsetSize(Upto(n), members);
    }
  }

  lemma {:induction false} SubsetSize<T>(a: set<T>, b: set<T>)
    requires a <= b
    ensures |a| <= |b|
    decreases a
  {
    if a != {} {
      var x :| x in a;
      SubsetSize(a - {x}, b - {x});
    }
  }

  lemma {:induction false} SameSizeSubset<T>(a: set<T>, b: set<T>)
    requires a <= b && |a| == |b|
    ensures a == b
  {
    assert |b - a| == |b| - |a|;
  }
}
