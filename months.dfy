/** Calendar order of month names: the `MONTHS` table (Website.js:7) and the
    comparator `(a, b) => MONTHS.indexOf(a) - MONTHS.indexOf(b)` used with
    the stable `Array.prototype.sort` (Website.js:223, 311, 405). */
module Months {
  import opened Sequences

  const MONTHS: seq<string> := ["January", "February", "March", "April", "May", "June",
                                "July", "August", "September", "October", "November", "December"]

  /** `xs.indexOf(x)`: the first position of `x`, or -1 when it is absent. */
  function IndexOf(xs: seq<string>, x: string): (k: int)
    ensures -1 <= k < |xs|
    ensures k == -1 <==> x !in xs
    ensures 0 <= k ==> xs[k] == x && x !in xs[..k]
  {
    if xs == [] then -1
    else if xs[0] == x then 0
    else
      var k := IndexOf(xs[1..], x);
      if k == -1 then -1
      else
        assert xs[..k + 1] == [xs[0]] + xs[1..][..k];
        k + 1
  }

  /** The sort key of a month name: its calendar position 0..11, or -1 for
      a name that is not in the table. */
  function MonthIndex(m: string): (k: int)
    ensures -1 <= k < 12
  {
    IndexOf(MONTHS, m)
  }

  /** The key of a calendar name is its position in the table; any other
      name has key -1. */
  lemma MonthIndexMeaning(m: string)
    ensures MonthIndex(m) == -1 <==> m !in MONTHS
    ensures 0 <= MonthIndex(m) ==> MONTHS[MonthIndex(m)] == m
  {
  }

  /** The names of `xs` with sort key `k`, in their order in `xs`. */
  function Bucket(xs: seq<string>, k: int): (b: seq<string>)
    ensures |b| <= |xs|
    ensures forall i :: 0 <= i < |b| ==> MonthIndex(b[i]) == k
  {
    if xs == [] then []
    else
      var x := xs[|xs| - 1];
      Bucket(xs[..|xs| - 1], k) + (if MonthIndex(x) == k then [x] else [])
  }

  /** The names of `xs` with sort key at least `k`, in their order in `xs`. */
  function Above(xs: seq<string>, k: int): seq<string> {
    if xs == [] then []
    else
      var x := xs[|xs| - 1];
      Above(xs[..|xs| - 1], k) + (if MonthIndex(x) >= k then [x] else [])
  }

  /** The buckets `k`, `k + 1`, ..., 11 of `xs`, one after another. */
  function SortFrom(xs: seq<string>, k: int): seq<string>
    requires k >= -1
    decreases 12 - k
  {
    if k >= 12 then [] else Bucket(xs, k) + SortFrom(xs, k + 1)
  }

  /** `xs.sort((a, b) => MONTHS.indexOf(a) - MONTHS.indexOf(b))`. A stable
      sort on a key in -1..11 puts the names of each key together, keys
      ascending, each group in its original order. */
  function SortByMonth(xs: seq<string>): seq<string> {
    SortFrom(xs, -1)
  }

  /** Calendar order: the sort keys do not decrease. */
  ghost predicate SortedByMonth(xs: seq<string>) {
    forall i, j :: 0 <= i < j < |xs| ==> MonthIndex(xs[i]) <= MonthIndex(xs[j])
  }

  lemma {:induction false} BucketAppend(xs: seq<string>, ys: seq<string>, k: int)
    ensures Bucket(xs + ys, k) == Bucket(xs, k) + Bucket(ys, k)
  {
    if ys != [] {
      var init := ys[..|ys| - 1];
      assert (xs + ys)[..|xs + ys| - 1] == xs + init;
      assert (xs + ys)[|xs + ys| - 1] == ys[|ys| - 1];
      BucketAppend(xs, init, k);
    } else {
      assert xs + ys == xs;
    }
  }

  /** A bucket taken again is itself, and has nothing under another key. */
  lemma {:induction false} BucketOfBucket(xs: seq<string>, k: int, j: int)
    ensures Bucket(Bucket(xs, k), j) == if j == k then Bucket(xs, k) else []
  {
    if xs != [] {
      var init, x := xs[..|xs| - 1], xs[|xs| - 1];
      BucketOfBucket(init, k, j);
      BucketAppend(Bucket(init, k), if MonthIndex(x) == k then [x] else [], j);
    }
  }

  /** Bucket `j` of the sorted tail from `k` is bucket `j` of the input when
      `j >= k`, and empty below `k`. */
  lemma {:induction false} SortFromBucket(xs: seq<string>, k: int, j: int)
    requires k >= -1
    ensures Bucket(SortFrom(xs, k), j) == if j >= k && j < 12 then Bucket(xs, j) else []
    decreases 12 - k
  {
    if k < 12 {
      SortFromBucket(xs, k + 1, j);
      BucketAppend(Bucket(xs, k), SortFrom(xs, k + 1), j);
      BucketOfBucket(xs, k, j);
    }
  }

  /** Every name of the sorted tail from `k` has key at least `k`. */
  lemma {:induction false} SortFromKeys(xs: seq<string>, k: int)
    requires k >= -1
    ensures forall i :: 0 <= i < |SortFrom(xs, k)| ==> MonthIndex(SortFrom(xs, k)[i]) >= k
    decreases 12 - k
  {
    if k < 12 {
      SortFromKeys(xs, k + 1);
    }
  }

  /** Names of one key followed by names of larger keys, each part in
      calendar order, are in calendar order. */
  lemma SortedConcat(b: seq<string>, r: seq<string>, k: int)
    requires forall i :: 0 <= i < |b| ==> MonthIndex(b[i]) == k
    requires forall i :: 0 <= i < |r| ==> MonthIndex(r[i]) >= k
    requires SortedByMonth(r)
    ensures SortedByMonth(b + r)
  {
    var c := b + r;
    forall i, j | 0 <= i < j < |c| ensures MonthIndex(c[i]) <= MonthIndex(c[j]) {
      if j < |b| {
        assert c[i] == b[i] && c[j] == b[j];
      } else if i >= |b| {
        assert c[i] == r[i - |b|] && c[j] == r[j - |b|];
      } else {
        assert c[i] == b[i] && c[j] == r[j - |b|];
      }
    }
  }

  /** The keys of the sorted tail do not decrease. */
  lemma {:induction false} SortFromSorted(xs: seq<string>, k: int)
    requires k >= -1
    ensures SortedByMonth(SortFrom(xs, k))
    decreases 12 - k
  {
    if k < 12 {
      SortFromSorted(xs, k + 1);
      SortFromKeys(xs, k + 1);
      SortedConcat(Bucket(xs, k), SortFrom(xs, k + 1), k);
    }
  }

  lemma {:induction false} AboveSplit(xs: seq<string>, k: int)
    ensures multiset(Above(xs, k)) == multiset(Bucket(xs, k)) + multiset(Above(xs, k + 1))
  {
    if xs != [] {
      AboveSplit(xs[..|xs| - 1], k);
    }
  }

  lemma {:induction false} AboveAll(xs: seq<string>)
    ensures Above(xs, -1) == xs
  {
    if xs != [] {
      AboveAll(xs[..|xs| - 1]);
    }
  }

  lemma {:induction false} AboveNone(xs: seq<string>)
    ensures Above(xs, 12) == []
  {
    if xs != [] {
      AboveNone(xs[..|xs| - 1]);
    }
  }

  lemma {:induction false} SortFromMultiset(xs: seq<string>, k: int)
    requires k >= -1
    ensures multiset(SortFrom(xs, k)) == multiset(Above(xs, k))
    decreases 12 - k
  {
    if k < 12 {
      SortFromMultiset(xs, k + 1);
      AboveSplit(xs, k);
    } else {
      AboveNone(xs);
      assert Above(xs, k) == [] by {
        AboveFrom12(xs, k);
      }
    }
  }

  lemma {:induction false} AboveFrom12(xs: seq<string>, k: int)
    requires k >= 12
    ensures Above(xs, k) == []
  {
    if xs != [] {
      AboveFrom12(xs[..|xs| - 1], k);
    }
  }

  /** The month sort is a stable sort: the result is in calendar order, is a
      permutation of the input, and keeps the names of each key in their
      input order. It keeps a duplicate-free list duplicate-free. */
  lemma SortByMonthProperties(xs: seq<string>)
    ensures SortedByMonth(SortByMonth(xs))
    ensures multiset(SortByMonth(xs)) == multiset(xs)
    ensures forall k :: Bucket(SortByMonth(xs), k) == Bucket(xs, k)
    ensures Distinct(xs) ==> Distinct(SortByMonth(xs))
  {
    SortFromSorted(xs, -1);
    SortFromMultiset(xs, -1);
    AboveAll(xs);
    forall k ensures Bucket(SortByMonth(xs), k) == Bucket(xs, k) {
      SortFromBucket(xs, -1, k);
      if k < -1 || k >= 12 {
        BucketEmpty(xs, k);
      }
    }
    if Distinct(xs) {
      DistinctPermutation(xs, SortByMonth(xs));
    }
  }

  /** There are no names with a key outside -1..11. */
  lemma {:induction false} BucketEmpty(xs: seq<string>, k: int)
    requires k < -1 || k >= 12
    ensures Bucket(xs, k) == []
  {
    if xs != [] {
      BucketEmpty(xs[..|xs| - 1], k);
    }
  }
}
