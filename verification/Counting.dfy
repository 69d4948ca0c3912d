/** Sizes of finite sets of numbers. */
module Counting {
  /** The numbers lo, .., hi - 1. */
  ghost function Interval(lo: int, hi: int): (s: set<int>)
    ensures forall x :: x in s <==> lo <= x < hi
    ensures |s| == if lo <= hi then hi - lo else 0
    decreases hi - lo
  {
    if hi <= lo then {} else Interval(lo, hi - 1) + {hi - 1}
  }

  lemma SubsetSize<T>(s: set<T>, t: set<T>)
    requires s <= t
    ensures |s| <= |t|
    ensures |s| == |t| ==> s == t
  {
    assert |t - s| == |t| - |s|;
  }

  lemma SizeAdd<T>(s: set<T>, x: T)
    requires x !in s
    ensures |s + {x}| == |s| + 1
  {
  }

  lemma Member<T>(s: set<T>) returns (x: T)
    requires |s| > 0
    ensures x in s
  {
    x :| x in s;
  }

  lemma Removed<T>(s: set<T>, x: T)
    requires x in s
    ensures |s - {x}| == |s| - 1
  {
  }

  lemma SplitSize<T>(s: set<T>, t: set<T>)
    requires s <= t
    ensures |t - s| == |t| - |s|
  {
    SubsetSize(s, t);
  }

  lemma UnionSize<T>(s: set<T>, t: set<T>)
    requires s !! t
    ensures |s + t| == |s| + |t|
  {
  }

  /** n members of a set. */
  lemma {:induction false} Subset<T>(s: set<T>, n: nat) returns (t: set<T>)
    requires n <= |s|
    ensures t <= s && |t| == n
  {
    if n == 0 {
      t := {};
    } else {
      var x := Member(s);
      Removed(s, x);
      var rest := Subset(s - {x}, n - 1);
      SizeAdd(rest, x);
      t := rest + {x};
    }
  }
}
