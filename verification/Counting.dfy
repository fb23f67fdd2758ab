/** Finite counting: the pigeonhole arguments behind every search loop of the model. */
module Counting {

  lemma {:induction false} SubsetIsSmaller<T>(small: set<T>, big: set<T>)
    requires small <= big
    ensures |small| <= |big|
  {
    if small != {} {
      var x :| x in small;
      SubsetIsSmaller(small - {x}, big - {x});
    }
  }

  lemma ProperSubsetIsSmaller<T>(small: set<T>, big: set<T>)
    requires small < big
    ensures |small| < |big|
  {
    var x :| x in big && x !in small;
    SubsetIsSmaller(small, big - {x});
  }

  lemma ElementOutside<T>(small: set<T>, big: set<T>) returns (x: T)
    requires |small| < |big|
    ensures x in big && x !in small
  {
    if big <= small {
      SubsetIsSmaller(big, small);
      assert false;
    }
    x :| x in big && x !in small;
  }

  lemma SameSizeSubset<T>(small: set<T>, big: set<T>)
    requires small <= big && |small| == |big|
    ensures small == big
  {
    if x :| x in big && x !in small {
      SubsetIsSmaller(small, big - {x});
    }
  }

  ghost predicate Distinct<T>(s: seq<T>) {
    forall i, j :: 0 <= i < j < |s| ==> s[i] != s[j]
  }

  ghost function Elements<T>(s: seq<T>): set<T> {
    set x | x in s
  }

  lemma {:induction false} DistinctCount<T>(s: seq<T>)
    requires Distinct(s)
    ensures |Elements(s)| == |s|
  {
    if s == [] {
    } else {
      var last := s[|s| - 1];
      var rest := s[..|s| - 1];
      DistinctCount(rest);
      assert Elements(s) == Elements(rest) + {last};
      assert last !in Elements(rest);
    }
  }

  /** More distinct values than forbidden ones: some position is allowed. */
  lemma Pigeonhole<T>(s: seq<T>, forbidden: set<T>) returns (i: nat)
    requires |forbidden| < |Elements(s)|
    ensures i < |s| && s[i] !in forbidden
  {
    if forall j :: 0 <= j < |s| ==> s[j] in forbidden {
      assert Elements(s) <= forbidden;
      SubsetIsSmaller(Elements(s), forbidden);
      assert false;
    }
    i :| 0 <= i < |s| && s[i] !in forbidden;
  }

  ghost function Range(lo: int, hi: int): (r: set<int>)
    ensures forall x :: x in r <==> lo <= x < hi
    decreases hi - lo
  {
    if lo >= hi then {} else Range(lo, hi - 1) + {hi - 1}
  }

  lemma {:induction false} RangeCount(lo: int, hi: int)
    requires lo <= hi
    ensures |Range(lo, hi)| == hi - lo
    decreases hi - lo
  {
    if lo < hi {
      RangeCount(lo, hi - 1);
    }
  }

  /** As many different values below `n` as there are: every one of them occurs. */
  lemma EveryValueOccurs(s: seq<int>, n: nat, want: nat) returns (i: nat)
    requires |Elements(s)| == n && want < n
    requires forall j :: 0 <= j < |s| ==> 0 <= s[j] < n
    ensures i < |s| && s[i] == want
  {
    RangeCount(0, n);
    i := Pigeonhole(s, Range(0, n) - {want});
  }
}
