/** `calculate_price_differences`: write `price_difference = Resell Price -
    Sale Price` into the caller's table, then reduce that column to its mean
    and median, signed and absolute, under four fixed keys. */
module PriceStats {
  import opened Sales

  /** What pandas gives back for a statistic: a number, or NaN when the
      column is empty. */
  datatype Stat = Value(x: real) | NaN

  const AverageKey: string := "Average Price Change"
  const MedianKey: string := "Median Price Change"
  const AbsAverageKey: string := "Average Absolute Price Change"
  const AbsMedianKey: string := "Median Absolute Price Change"

  /** Apply f to every element, keeping the order. */
  function MapSeq<A, B>(f: A -> B, s: seq<A>): (r: seq<B>)
    ensures |r| == |s| && forall i :: 0 <= i < |s| ==> r[i] == f(s[i])
  {
    seq(|s|, i requires 0 <= i < |s| => f(s[i]))
  }

  /** What a row gained on resale: added to the sale price it gives the resell price. */
  function RowDelta(row: Row): (delta: int)
    ensures row.salePrice + delta == row.resellPrice
  {
    row.resellPrice - row.salePrice
  }

  /** The `price_difference` column of a table, row by row. */
  function PriceDifferences(table: seq<Row>): (column: seq<int>)
    ensures |column| == |table|
    ensures forall i :: 0 <= i < |table| ==> table[i].salePrice + column[i] == table[i].resellPrice
  {
    MapSeq(RowDelta, table)
  }

  function AbsInt(x: int): (a: int)
    ensures a >= 0 && (a == x || a == -x)
  {
    if x < 0 then -x else x
  }

  /** `Series.abs()`: each value's magnitude, in place. */
  function Abs(s: seq<int>): (magnitudes: seq<int>)
    ensures |magnitudes| == |s|
    ensures forall i :: 0 <= i < |s| ==> 0 <= magnitudes[i] && (magnitudes[i] == s[i] || magnitudes[i] == -s[i])
  {
    MapSeq(AbsInt, s)
  }

  function Sum(s: seq<int>): int {
    if s == [] then 0 else s[0] + Sum(s[1..])
  }

  /** `Series.mean()`: the sum over the count; NaN for an empty column. */
  function Mean(s: seq<int>): (m: Stat)
    ensures m.NaN? <==> s == []
  {
    if s == [] then NaN else Value(Sum(s) as real / |s| as real)
  }

  predicate Ascending(s: seq<int>) {
    forall i, j :: 0 <= i < j < |s| ==> s[i] <= s[j]
  }

  /** Every element of s is at least lo. */
  predicate AllAtLeast(lo: int, s: seq<int>) {
    forall j :: 0 <= j < |s| ==> lo <= s[j]
  }

  lemma AscendingCons(x: int, s: seq<int>)
    requires AllAtLeast(x, s) && Ascending(s)
    ensures Ascending([x] + s)
  {
    var t := [x] + s;
    forall i, j | 0 <= i < j < |t|
      ensures t[i] <= t[j]
    {
      assert t[j] == s[j - 1];
    }
  }

  lemma AllAtLeastPermutation(lo: int, s: seq<int>, t: seq<int>, x: int)
    requires AllAtLeast(lo, s) && lo <= x
    requires multiset(t) == multiset(s) + multiset{x}
    ensures AllAtLeast(lo, t)
  {
    forall j | 0 <= j < |t|
      ensures lo <= t[j]
    {
      assert t[j] in multiset(t);
      if t[j] != x {
        assert t[j] in multiset(s);
        var k :| 0 <= k < |s| && s[k] == t[j];
      }
    }
  }

  function InsertInt(x: int, sorted: seq<int>): (r: seq<int>)
    requires Ascending(sorted)
    ensures Ascending(r)
    ensures multiset(r) == multiset(sorted) + multiset{x}
  {
    if sorted == [] || x <= sorted[0] then
      assert AllAtLeast(x, sorted);
      AscendingCons(x, sorted);
      [x] + sorted
    else
      var rest := InsertInt(x, sorted[1..]);
      assert AllAtLeast(sorted[0], sorted[1..]);
      AllAtLeastPermutation(sorted[0], sorted[1..], rest, x);
      AscendingCons(sorted[0], rest);
      assert sorted == [sorted[0]] + sorted[1..];
      [sorted[0]] + rest
  }

  /** The column sorted ascending: a permutation of it with the same sum. */
  function SortInts(s: seq<int>): (r: seq<int>)
    ensures Ascending(r)
    ensures multiset(r) == multiset(s) && |r| == |s|
  {
    if s == [] then []
    else
      assert s == [s[0]] + s[1..];
      var r := InsertInt(s[0], SortInts(s[1..]));
      assert |r| == |multiset(r)| == |multiset(s)| == |s|;
      r
  }

  lemma {:induction false} SumInsertInt(x: int, sorted: seq<int>)
    requires Ascending(sorted)
    ensures Sum(InsertInt(x, sorted)) == x + Sum(sorted)
  {
    if sorted != [] && x > sorted[0] {
      SumInsertInt(x, sorted[1..]);
      var r := InsertInt(x, sorted);
      assert r[1..] == InsertInt(x, sorted[1..]);
    }
  }

  /** Sorting keeps the sum. */
  lemma {:induction false} SumSortInts(s: seq<int>)
    ensures Sum(SortInts(s)) == Sum(s)
  {
    if s != [] {
      SumSortInts(s[1..]);
      SumInsertInt(s[0], SortInts(s[1..]));
    }
  }

  /** `Series.median()`: the middle of the sorted column, the mean of the two
      middle values for an even count; NaN for an empty column. */
  function Median(s: seq<int>): (m: Stat)
    ensures m.NaN? <==> s == []
  {
    if s == [] then NaN else Middle(SortInts(s))
  }

  /** The middle value of a sorted column, or the mean of the two middle
      values for an even count. */
  function Middle(t: seq<int>): (m: Stat)
    requires t != []
    ensures m.Value? && 2.0 * m.x == (t[(|t| - 1) / 2] + t[|t| / 2]) as real
  {
    var n := |t|;
    if n % 2 == 1 then Value(t[n / 2] as real)
    else Value((t[n / 2 - 1] + t[n / 2]) as real / 2.0)
  }

  /** The dictionary the source returns: four keys, each holding a
      one-element list. */
  function Summary(deltas: seq<int>): (result: map<string, seq<Stat>>)
    ensures result.Keys == {AverageKey, MedianKey, AbsAverageKey, AbsMedianKey}
  {
    map[
      AverageKey := [Mean(deltas)],
      MedianKey := [Median(deltas)],
      AbsAverageKey := [Mean(Abs(deltas))],
      AbsMedianKey := [Median(Abs(deltas))]]
  }

  /** A dictionary entry: a one-element list, NaN exactly when empty. */
  predicate SingleStat(stats: seq<Stat>, empty: bool) {
    |stats| == 1 && (stats[0].NaN? <==> empty)
  }

  /** Each entry of the dictionary is a one-element list, NaN exactly when
      there are no rows. */
  lemma SummaryEntries(deltas: seq<int>)
    ensures forall k: string :: k in Summary(deltas) ==> SingleStat(Summary(deltas)[k], deltas == [])
  {
    SummaryEntryIsAStatistic(deltas);
    StatisticsAreSingle(deltas);
  }

  lemma SummaryEntryIsAStatistic(deltas: seq<int>)
    ensures forall k: string :: k in Summary(deltas) ==>
      (Summary(deltas)[k] in {[Mean(deltas)], [Median(deltas)], [Mean(Abs(deltas))], [Median(Abs(deltas))]})
  {
  }

  lemma StatisticsAreSingle(deltas: seq<int>)
    ensures SingleStat([Mean(deltas)], deltas == []) && SingleStat([Median(deltas)], deltas == [])
    ensures SingleStat([Mean(Abs(deltas))], deltas == []) && SingleStat([Median(Abs(deltas))], deltas == [])
  {
    assert Abs(deltas) == [] <==> deltas == [];
  }

  /** The `price_difference` column once it has been written into every row. */
  function DifferenceColumn(rows: seq<Row>): (column: seq<int>)
    requires forall i :: 0 <= i < |rows| ==> rows[i].priceDifference.Some?
    ensures |column| == |rows|
  {
    seq(|rows|, i requires 0 <= i < |rows| => rows[i].priceDifference.value)
  }

  /** `calculate_price_differences`: the column write changes each row's
      `price_difference` and nothing else, in the caller's table; the result
      is the summary of the new column. */
  method CalculatePriceDifferences(frame: array<Row>) returns (result: map<string, seq<Stat>>)
    modifies frame
    ensures forall i :: 0 <= i < frame.Length ==>
      frame[i] == old(frame[i]).(priceDifference := Some(old(frame[i]).resellPrice - old(frame[i]).salePrice))
    ensures result == Summary(PriceDifferences(old(frame[..])))
  {
    forall i | 0 <= i < frame.Length {
      frame[i] := frame[i].(priceDifference := Some(frame[i].resellPrice - frame[i].salePrice));
    }
    var column := DifferenceColumn(frame[..]);
    assert column == PriceDifferences(old(frame[..]));
    result := Summary(column);
  }

  /** Two ascending sequences with the same elements are the same sequence. */
  lemma {:induction false} AscendingUnique(a: seq<int>, b: seq<int>)
    requires Ascending(a) && Ascending(b)
    requires multiset(a) == multiset(b)
    ensures a == b
  {
    if a == [] {
      assert |multiset(b)| == 0;
    } else {
      assert a[0] in multiset(b);
      assert b[0] in multiset(a);
      AscendingHeadIsLeast(a[0], b);
      AscendingHeadIsLeast(b[0], a);
      var x := a[0];
      assert x == b[0];
      MultisetOfTail(a);
      MultisetOfTail(b);
      var ta, tb := a[1..], b[1..];
      assert Ascending(ta) && Ascending(tb);
      AscendingUnique(ta, tb);
      SameHeadSameTail(a, b);
    }
  }

  /** The head of an ascending sequence is at most any of its elements. */
  lemma AscendingHeadIsLeast(x: int, s: seq<int>)
    requires Ascending(s) && x in multiset(s)
    ensures s != [] && s[0] <= x
  {
    var j :| 0 <= j < |s| && s[j] == x;
  }

  lemma SameHeadSameTail<A>(a: seq<A>, b: seq<A>)
    requires a != [] && b != [] && a[0] == b[0] && a[1..] == b[1..]
    ensures a == b
  {
    assert a == [a[0]] + a[1..] && b == [b[0]] + b[1..];
  }

  lemma MultisetOfTail<A>(s: seq<A>)
    requires s != []
    ensures multiset(s[1..]) == multiset(s) - multiset{s[0]}
  {
    assert s == [s[0]] + s[1..];
  }

  /** Sorting forgets the order the column came in. */
  lemma SortIntsPermutationInvariant(a: seq<int>, b: seq<int>)
    requires multiset(a) == multiset(b)
    ensures SortInts(a) == SortInts(b)
  {
    AscendingUnique(SortInts(a), SortInts(b));
  }

  lemma MapSeqAppend<A, B>(f: A -> B, u: seq<A>, v: seq<A>)
    ensures MapSeq(f, u + v) == MapSeq(f, u) + MapSeq(f, v)
  {
  }

  /** Mapping two permutations of each other gives permutations of each other. */
  lemma {:induction false} MapPermutation<A, B>(f: A -> B, a: seq<A>, b: seq<A>)
    requires multiset(a) == multiset(b)
    ensures multiset(MapSeq(f, a)) == multiset(MapSeq(f, b))
    decreases |a|
  {
    if a == [] {
      assert |multiset(b)| == 0;
      assert b == [];
    } else {
      var x := a[0];
      assert x in multiset(b);
      var left, right := SplitAround(b, x);
      MultisetOfTail(a);
      MapPermutation(f, a[1..], left + right);
      MapSeqCons(f, a);
      MapSeqInsert(f, b, left, x, right);
    }
  }

  /** An element of b splits it into what comes before and after one of its
      occurrences. */
  lemma SplitAround<A>(b: seq<A>, x: A) returns (left: seq<A>, right: seq<A>)
    requires x in multiset(b)
    ensures b == left + [x] + right
    ensures multiset(left + right) == multiset(b) - multiset{x}
  {
    var k :| 0 <= k < |b| && b[k] == x;
    left, right := b[..k], b[k + 1..];
    assert b == left + [x] + right;
  }

  lemma MapSeqCons<A, B>(f: A -> B, s: seq<A>)
    requires s != []
    ensures multiset(MapSeq(f, s)) == multiset{f(s[0])} + multiset(MapSeq(f, s[1..]))
  {
    assert s == [s[0]] + s[1..];
    MapSeqAppend(f, [s[0]], s[1..]);
    assert MapSeq(f, [s[0]]) == [f(s[0])];
  }

  lemma MapSeqInsert<A, B>(f: A -> B, b: seq<A>, left: seq<A>, x: A, right: seq<A>)
    requires b == left + [x] + right
    ensures multiset(MapSeq(f, b)) == multiset(MapSeq(f, left + right)) + multiset{f(x)}
  {
    MapSeqAppend(f, left + [x], right);
    MapSeqAppend(f, left, [x]);
    MapSeqAppend(f, left, right);
    assert MapSeq(f, [x]) == [f(x)];
  }

  /** The mean depends only on which values occur, not on their order. */
  lemma MeanPermutationInvariant(a: seq<int>, b: seq<int>)
    requires multiset(a) == multiset(b)
    ensures Mean(a) == Mean(b)
  {
    SortIntsPermutationInvariant(a, b);
    SumSortInts(a);
    SumSortInts(b);
    assert |a| == |multiset(a)| == |b|;
  }

  /** The median depends only on which values occur, not on their order. */
  lemma MedianPermutationInvariant(a: seq<int>, b: seq<int>)
    requires multiset(a) == multiset(b)
    ensures Median(a) == Median(b)
  {
    SortIntsPermutationInvariant(a, b);
    assert |a| == |SortInts(a)| == |SortInts(b)| == |b|;
  }

  /** The summary depends only on which differences occur, not on the order
      of the rows; so the unspecified order of equal zips after the sort
      cannot change the result. */
  lemma SummaryPermutationInvariant(a: seq<int>, b: seq<int>)
    requires multiset(a) == multiset(b)
    ensures Summary(a) == Summary(b)
  {
    MeanPermutationInvariant(a, b);
    MedianPermutationInvariant(a, b);
    MapPermutation(AbsInt, a, b);
    MeanPermutationInvariant(Abs(a), Abs(b));
    MedianPermutationInvariant(Abs(a), Abs(b));
  }

  /** Every value between lo and hi bounds the sum between |s|*lo and |s|*hi. */
  lemma {:induction false} SumBetween(s: seq<int>, lo: int, hi: int)
    requires forall i :: 0 <= i < |s| ==> lo <= s[i] <= hi
    ensures |s| * lo <= Sum(s) <= |s| * hi
  {
    if s != [] {
      SumBetween(s[1..], lo, hi);
    }
  }

  /** Positions of a smallest and a largest element. */
  lemma {:induction false} Extremes(s: seq<int>) returns (lo: nat, hi: nat)
    requires s != []
    ensures lo < |s| && hi < |s|
    ensures forall k :: 0 <= k < |s| ==> s[lo] <= s[k] <= s[hi]
  {
    if |s| == 1 {
      return 0, 0;
    }
    var l, h := Extremes(s[1..]);
    lo := if s[0] <= s[1..][l] then 0 else l + 1;
    hi := if s[1..][h] <= s[0] then 0 else h + 1;
    forall k | 0 < k < |s|
      ensures s[lo] <= s[k] <= s[hi]
    {
      assert s[k] == s[1..][k - 1];
    }
  }

  lemma DivBetween(sum: int, n: nat, lo: int, hi: int)
    requires n > 0 && n * lo <= sum <= n * hi
    ensures lo as real <= sum as real / n as real <= hi as real
  {
    var m := sum as real / n as real;
    assert m * n as real == sum as real;
    assert (n * lo) as real == n as real * lo as real;
    assert (n * hi) as real == n as real * hi as real;
  }

  /** The mean lies between the smallest and the largest difference. */
  lemma MeanWithinRange(s: seq<int>)
    requires s != []
    ensures exists i, j :: 0 <= i < |s| && 0 <= j < |s| && s[i] as real <= Mean(s).x <= s[j] as real
  {
    var lo, hi := Extremes(s);
    SumBetween(s, s[lo], s[hi]);
    DivBetween(Sum(s), |s|, s[lo], s[hi]);
  }

  /** The median lies between the smallest and the largest difference. */
  lemma MedianWithinRange(s: seq<int>)
    requires s != []
    ensures exists i, j :: 0 <= i < |s| && 0 <= j < |s| && s[i] as real <= Median(s).x <= s[j] as real
  {
    var t := SortInts(s);
    MedianBetweenSorted(s, t);
    assert t[0] in multiset(s) && t[|t| - 1] in multiset(s);
    var i :| 0 <= i < |s| && s[i] == t[0];
    var j :| 0 <= j < |s| && s[j] == t[|t| - 1];
  }

  /** The median lies between the first and the last of the sorted column. */
  lemma MedianBetweenSorted(s: seq<int>, t: seq<int>)
    requires s != [] && t == SortInts(s)
    ensures t[0] as real <= Median(s).x <= t[|t| - 1] as real
  {
    var n := |t|;
    var mid := n / 2;
    if n % 2 == 1 {
      assert t[0] <= t[mid] <= t[n - 1];
    } else {
      var lo, hi := t[mid - 1], t[mid];
      assert t[0] <= lo <= hi <= t[n - 1];
      MidpointBetween(t[0], lo, hi, t[n - 1]);
    }
  }

  lemma MidpointBetween(first: int, lo: int, hi: int, last: int)
    requires first <= lo <= hi <= last
    ensures first as real <= (lo + hi) as real / 2.0 <= last as real
  {
  }

  /** The absolute statistics are never negative. */
  lemma AbsStatsNonNegative(s: seq<int>)
    requires s != []
    ensures Mean(Abs(s)).x >= 0.0
    ensures Median(Abs(s)).x >= 0.0
  {
    MeanWithinRange(Abs(s));
    MedianWithinRange(Abs(s));
  }

  lemma {:induction false} SumAbsBound(s: seq<int>)
    ensures AbsInt(Sum(s)) <= Sum(Abs(s))
  {
    if s != [] {
      SumAbsBound(s[1..]);
      assert Abs(s) == [AbsInt(s[0])] + Abs(s[1..]);
    }
  }

  lemma DivMonotonic(x: int, y: int, n: nat)
    requires n > 0 && x <= y
    ensures x as real / n as real <= y as real / n as real
  {
  }

  /** The signed mean never exceeds the absolute mean in magnitude. */
  lemma MeanBoundedByAbsMean(s: seq<int>)
    requires s != []
    ensures -Mean(Abs(s)).x <= Mean(s).x <= Mean(Abs(s)).x
  {
    SumAbsBound(s);
    var n, signed, magnitude := |s|, Sum(s), Sum(Abs(s));
    DivMonotonic(signed, magnitude, n);
    DivMonotonic(-magnitude, signed, n);
    NegatedDiv(magnitude, n);
  }

  lemma NegatedDiv(x: int, n: nat)
    requires n > 0
    ensures (-x) as real / n as real == -(x as real / n as real)
  {
  }

  /** The median is the middle of any ascending arrangement of the column,
      the mean of the two middle values for an even count. */
  lemma MedianIsMiddleOfSorted(s: seq<int>, t: seq<int>)
    requires multiset(t) == multiset(s) && Ascending(t) && t != []
    ensures Median(s) ==
      if |t| % 2 == 1 then Value(t[|t| / 2] as real)
      else Value((t[|t| / 2 - 1] + t[|t| / 2]) as real / 2.0)
  {
    AscendingUnique(SortInts(s), t);
  }

  /** An even count takes the mean of the two middle values: [10,20,30,40] gives 25. */
  lemma EvenMedianExample(s: seq<int>)
    requires s == [10, 20, 30, 40]
    ensures Median(s) == Value(25.0)
  {
    MedianOfFour(s, s);
  }

  /** Four values: the median is the mean of the middle two of their
      ascending arrangement t. */
  lemma MedianOfFour(s: seq<int>, t: seq<int>)
    requires |t| == 4 && t[0] <= t[1] <= t[2] <= t[3] && multiset(t) == multiset(s)
    ensures Median(s) == Value((t[1] + t[2]) as real / 2.0)
  {
    assert Ascending(t);
    MedianIsMiddleOfSorted(s, t);
  }

  /** Three values: the median is the middle one of their ascending
      arrangement t. */
  lemma MedianOfThree(s: seq<int>, t: seq<int>)
    requires |t| == 3 && t[0] <= t[1] <= t[2] && multiset(t) == multiset(s)
    ensures Median(s) == Value(t[1] as real)
  {
    assert Ascending(t);
    MedianIsMiddleOfSorted(s, t);
  }

  lemma SumOfThree(s: seq<int>)
    requires |s| == 3
    ensures Sum(s) == s[0] + s[1] + s[2]
  {
    var rest := s[1..];
    var last := rest[1..];
    assert last[1..] == [];
    assert Sum(last) == s[2] + Sum(last[1..]);
    assert Sum(rest) == s[1] + Sum(last);
  }

  /** The signed statistics of the differences [50, -20, 50]. */
  lemma SignedExampleStats(deltas: seq<int>)
    requires deltas == [50, -20, 50]
    ensures Mean(deltas) == Value(80.0 / 3.0)
    ensures Median(deltas) == Value(50.0)
  {
    SignedMean(deltas);
    SignedMedian(deltas);
  }

  lemma SignedMean(deltas: seq<int>)
    requires deltas == [50, -20, 50]
    ensures Mean(deltas) == Value(80.0 / 3.0)
  {
    SumOfThree(deltas);
  }

  lemma SignedMedian(deltas: seq<int>)
    requires deltas == [50, -20, 50]
    ensures Median(deltas) == Value(50.0)
  {
    MedianOfThree(deltas, [-20, 50, 50]);
  }

  /** The absolute statistics of the same differences, |d| = [50, 20, 50]. */
  lemma AbsExampleStats(deltas: seq<int>)
    requires deltas == [50, -20, 50]
    ensures Mean(Abs(deltas)) == Value(40.0)
    ensures Median(Abs(deltas)) == Value(50.0)
  {
    var abs := Abs(deltas);
    assert abs == [50, 20, 50];
    MagnitudeMean(abs);
    MagnitudeMedian(abs);
  }

  lemma MagnitudeMean(abs: seq<int>)
    requires abs == [50, 20, 50]
    ensures Mean(abs) == Value(40.0)
  {
    SumOfThree(abs);
  }

  lemma MagnitudeMedian(abs: seq<int>)
    requires abs == [50, 20, 50]
    ensures Median(abs) == Value(50.0)
  {
    MedianOfThree(abs, [20, 50, 50]);
  }

  /** The example table of the script's tests: sale/resell (100,150),
      (200,180), (300,350) give 80/3, 50, 40 and 50. */
  lemma SummaryExample(table: seq<Row>)
    requires table == [
        Row(0, ZipStr("00000"), 100, 150, None),
        Row(1, ZipStr("00000"), 200, 180, None),
        Row(2, ZipStr("00000"), 300, 350, None)]
    ensures Summary(PriceDifferences(table))
      == map[
        AverageKey := [Value(80.0 / 3.0)],
        MedianKey := [Value(50.0)],
        AbsAverageKey := [Value(40.0)],
        AbsMedianKey := [Value(50.0)]]
  {
    var deltas := PriceDifferences(table);
    assert deltas == [50, -20, 50];
    SignedExampleStats(deltas);
    AbsExampleStats(deltas);
  }
}
