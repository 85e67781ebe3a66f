/**
 * `np.median` over exact block means: sort, then take the middle element, or
 * the average of the two middle elements for an even count. Its defining
 * property is that at most half of the values lie strictly above it and at
 * most half strictly below it.
 */
module Statistics {

  predicate SortedAscending(s: seq<real>)
  {
    forall i, j :: 0 <= i < j < |s| ==> s[i] <= s[j]
  }

  /** Number of elements strictly above `v`. */
  function CountAbove(s: seq<real>, v: real): (n: nat)
    ensures n <= |s|
  {
    if s == [] then 0 else (if s[0] > v then 1 else 0) + CountAbove(s[1..], v)
  }

  /** Number of elements strictly below `v`. */
  function CountBelow(s: seq<real>, v: real): (n: nat)
    ensures n <= |s|
  {
    if s == [] then 0 else (if s[0] < v then 1 else 0) + CountBelow(s[1..], v)
  }

  /** Inserts `x` into an ascending sequence before the first element not below it. */
  function Insert(x: real, s: seq<real>): (t: seq<real>)
    ensures |t| == |s| + 1 && multiset(t) == multiset(s) + multiset{x}
  {
    if s == [] || x <= s[0] then
      [x] + s
    else
      assert s == [s[0]] + s[1..];
      [s[0]] + Insert(x, s[1..])
  }

  lemma {:induction false} InsertSorted(x: real, s: seq<real>)
    requires SortedAscending(s)
    ensures SortedAscending(Insert(x, s))
    ensures Insert(x, s)[0] == if s == [] || x <= s[0] then x else s[0]
  {
    if s != [] && x > s[0] {
      var t' := Insert(x, s[1..]);
      InsertSorted(x, s[1..]);
      assert s[0] <= t'[0];
      var t := [s[0]] + t';
      forall i, j | 0 <= i < j < |t|
        ensures t[i] <= t[j]
      {
        if i > 0 {
          assert t[i] == t'[i - 1] && t[j] == t'[j - 1];
        } else {
          assert t'[0] <= t'[j - 1];
        }
      }
    }
  }

  /** Insertion sort: an ascending permutation of `s`. */
  function Sort(s: seq<real>): (t: seq<real>)
    ensures SortedAscending(t)
    ensures multiset(t) == multiset(s) && |t| == |s|
  {
    if s == [] then []
    else
      assert s == [s[0]] + s[1..];
      InsertSorted(s[0], Sort(s[1..]));
      Insert(s[0], Sort(s[1..]))
  }

  lemma {:induction false} InsertCounts(x: real, s: seq<real>, v: real)
    ensures CountAbove(Insert(x, s), v) == CountAbove(s, v) + (if x > v then 1 else 0)
    ensures CountBelow(Insert(x, s), v) == CountBelow(s, v) + (if x < v then 1 else 0)
  {
    if s == [] || x <= s[0] {
      assert ([x] + s)[1..] == s;
    } else {
      var t := Insert(x, s);
      assert t[1..] == Insert(x, s[1..]);
      InsertCounts(x, s[1..], v);
    }
  }

  /** Sorting keeps how many values lie above and below any `v`. */
  lemma {:induction false} SortCounts(s: seq<real>, v: real)
    ensures CountAbove(Sort(s), v) == CountAbove(s, v)
    ensures CountBelow(Sort(s), v) == CountBelow(s, v)
  {
    if s != [] {
      SortCounts(s[1..], v);
      InsertCounts(s[0], Sort(s[1..]), v);
    }
  }

  /** Middle element, or mean of the two middle elements, of a sequence. */
  function Middle(t: seq<real>): real
    requires |t| > 0
  {
    var n := |t|;
    if n % 2 == 1 then t[n / 2] else (t[n / 2 - 1] + t[n / 2]) / 2.0
  }

  /** `np.median` of a non-empty sequence. */
  function Median(s: seq<real>): real
    requires |s| > 0
  {
    Middle(Sort(s))
  }

  /** If the first `m` elements are at most `v`, at most `|t| - m` lie above `v`. */
  lemma {:induction false} FewAbove(t: seq<real>, m: nat, v: real)
    requires m <= |t|
    requires forall i :: 0 <= i < m ==> t[i] <= v
    ensures CountAbove(t, v) <= |t| - m
  {
    if m > 0 {
      FewAbove(t[1..], m - 1, v);
    }
  }

  /** If the elements from `m` on are above `v`, at least `|t| - m` lie above `v`. */
  lemma {:induction false} ManyAbove(t: seq<real>, m: nat, v: real)
    requires m <= |t|
    requires forall i :: m <= i < |t| ==> t[i] > v
    ensures CountAbove(t, v) >= |t| - m
  {
    if t != [] {
      ManyAbove(t[1..], if m > 0 then m - 1 else 0, v);
    }
  }

  /** If the elements from `m` on are at least `v`, at most `m` lie below `v`. */
  lemma {:induction false} FewBelow(t: seq<real>, m: nat, v: real)
    requires m <= |t|
    requires forall i :: m <= i < |t| ==> t[i] >= v
    ensures CountBelow(t, v) <= m
  {
    if t != [] {
      FewBelow(t[1..], if m > 0 then m - 1 else 0, v);
    }
  }

  lemma MiddleSplitsSorted(t: seq<real>)
    requires |t| > 0 && SortedAscending(t)
    ensures CountAbove(t, Middle(t)) <= |t| / 2
    ensures CountBelow(t, Middle(t)) <= |t| / 2
  {
    if |t| % 2 == 1 {
      MiddleSplitsOdd(t);
    } else {
      MiddleSplitsEven(t);
    }
  }

  lemma MiddleSplitsOdd(t: seq<real>)
    requires |t| % 2 == 1 && SortedAscending(t)
    ensures CountAbove(t, t[|t| / 2]) <= |t| / 2
    ensures CountBelow(t, t[|t| / 2]) <= |t| / 2
  {
    var h := |t| / 2;
    assert forall i :: 0 <= i < h + 1 ==> t[i] <= t[h];
    FewAbove(t, h + 1, t[h]);
    assert forall i :: h <= i < |t| ==> t[i] >= t[h];
    FewBelow(t, h, t[h]);
  }

  lemma MiddleSplitsEven(t: seq<real>)
    requires |t| > 0 && |t| % 2 == 0 && SortedAscending(t)
    ensures var med := (t[|t| / 2 - 1] + t[|t| / 2]) / 2.0;
      CountAbove(t, med) <= |t| / 2 && CountBelow(t, med) <= |t| / 2
  {
    var h := |t| / 2;
    var med := (t[h - 1] + t[h]) / 2.0;
    assert t[h - 1] <= med <= t[h];
    assert forall i :: 0 <= i < h ==> t[i] <= med;
    FewAbove(t, h, med);
    assert forall i :: h <= i < |t| ==> t[i] >= med;
    FewBelow(t, h, med);
  }

  /** The median splits the values: at most half above it, at most half below it. */
  lemma MedianSplits(s: seq<real>)
    requires |s| > 0
    ensures CountAbove(s, Median(s)) <= |s| / 2
    ensures CountBelow(s, Median(s)) <= |s| / 2
  {
    MiddleSplitsSorted(Sort(s));
    SortCounts(s, Median(s));
  }

  /** The median of equal values is that value. */
  lemma MedianConstant(s: seq<real>, c: real)
    requires |s| > 0 && forall i :: 0 <= i < |s| ==> s[i] == c
    ensures Median(s) == c
  {
    var t := Sort(s);
    forall i | 0 <= i < |t|
      ensures t[i] == c
    {
      assert t[i] in multiset(t);
      assert t[i] in multiset(s);
    }
  }

  /** No value of a constant sequence lies above that value. */
  lemma {:induction false} NoneAboveConstant(s: seq<real>, c: real)
    requires forall i :: 0 <= i < |s| ==> s[i] == c
    ensures CountAbove(s, c) == 0
  {
    if s != [] {
      NoneAboveConstant(s[1..], c);
    }
  }

  lemma {:induction false} AllAbove(s: seq<real>, v: real)
    requires forall i :: 0 <= i < |s| ==> s[i] > v
    ensures CountAbove(s, v) == |s|
  {
    if s != [] {
      AllAbove(s[1..], v);
    }
  }

  /** Below `v < w`, every value is either above `v` or below `w`. */
  lemma {:induction false} AboveOrBelow(s: seq<real>, v: real, w: real)
    requires v < w
    ensures CountAbove(s, v) + CountBelow(s, w) >= |s|
  {
    if s != [] {
      AboveOrBelow(s[1..], v, w);
    }
  }

  /**
   * When no value lies below `lo` and more than half the values equal `lo`,
   * the median is `lo`.
   */
  lemma MedianAtLowest(s: seq<real>, lo: real)
    requires |s| > 0
    requires forall i :: 0 <= i < |s| ==> s[i] >= lo
    requires CountAbove(s, lo) < |s| - |s| / 2
    ensures Median(s) == lo
  {
    var m := Median(s);
    MedianSplits(s);
    if m < lo {
      AllAbove(s, m);
    } else if m > lo {
      AboveOrBelow(s, lo, m);
    }
  }

  /**
   * A sorted sequence of an even number of values, each `lo` or `hi > lo`, with
   * exactly half of them `hi`, has the midpoint of the two as its middle.
   */
  lemma MiddleOfTwoLevels(t: seq<real>, lo: real, hi: real)
    requires |t| > 0 && |t| % 2 == 0 && lo < hi && SortedAscending(t)
    requires forall i :: 0 <= i < |t| ==> t[i] == lo || t[i] == hi
    requires CountAbove(t, lo) == |t| / 2
    ensures Middle(t) == (lo + hi) / 2.0
  {
    var h := |t| / 2;
    if t[h] == lo {
      assert forall i :: 0 <= i < h + 1 ==> t[i] <= t[h];
      FewAbove(t, h + 1, lo);
      assert false;
    }
    if t[h - 1] == hi {
      assert forall i :: h - 1 <= i < |t| ==> t[h - 1] <= t[i];
      ManyAbove(t, h - 1, lo);
      assert false;
    }
  }

  /**
   * When every value is `lo` or `hi > lo` and exactly half of an even number of
   * values are `hi`, the median is the midpoint of the two.
   */
  lemma MedianAtMidpoint(s: seq<real>, lo: real, hi: real)
    requires |s| > 0 && |s| % 2 == 0 && lo < hi
    requires forall i :: 0 <= i < |s| ==> s[i] == lo || s[i] == hi
    requires CountAbove(s, lo) == |s| / 2
    ensures Median(s) == (lo + hi) / 2.0
  {
    var t := Sort(s);
    SortCounts(s, lo);
    forall i | 0 <= i < |t|
      ensures t[i] == lo || t[i] == hi
    {
      assert t[i] in multiset(s);
    }
    MiddleOfTwoLevels(t, lo, hi);
  }
}
