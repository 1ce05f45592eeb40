/** The script's entry point once the CSV has been loaded: pad the zip codes,
    keep the band "00" to "19" in zip order, and summarise the price changes
    of what remains. */
module Analysis {
  import opened Strings
  import opened Sales
  import opened ZipPadding
  import opened ZipFilter
  import opened PriceStats

  /** The pipeline of the `__main__` block, from the loaded table to the
      dictionary handed to `print_results`. */
  method AnalyzeCarSales(table: seq<Row>) returns (results: map<string, seq<Stat>>)
    ensures results == Summary(PriceDifferences(FilterByZipcode(AddZeroToZipcode(table))))
    ensures results.Keys == {AverageKey, MedianKey, AbsAverageKey, AbsMedianKey}
  {
    var padded := AddZeroToZipcode(table);
    var filtered := FilterByZipcode(padded);
    var frame := new Row[|filtered|](i requires 0 <= i < |filtered| => filtered[i]);
    assert frame[..] == filtered;
    results := CalculatePriceDifferences(frame);
  }

  /** An integer zip code below 100000 is in the band exactly when it is
      below 20000: after padding, the string test on the first two digits is
      the numeric test on the whole code. */
  lemma IntZipInBandIffBelow20000(n: nat)
    requires n < 100000
    ensures InBand(PadZip(ZipInt(n)).s) <==> n < 20000
  {
    var s := PadZip(ZipInt(n)).s;
    IntZipPadsToFive(n);
    InBandIsNumericRange(s);
    DecimalValueSplit(s, 2);
    DecimalValueBound(s[2..]);
    var lead, tail := DecimalValue(s[..2]), DecimalValue(s[2..]);
    assert |s| - 2 == 3 && |s[2..]| == 3;
    assert Pow10(3) == 1000;
    assert n == lead * 1000 + tail && tail < 1000;
  }

  /** With integer zip codes below 100000, the analysed rows are exactly the
      rows whose zip code is below 20000, each padded and otherwise unchanged. */
  lemma AnalysedRowsAreBelow20000(table: seq<Row>, row: Row)
    requires forall i :: 0 <= i < |table| ==> table[i].zipcode.ZipInt? && table[i].zipcode.n < 100000
    ensures row in FilterByZipcode(AddZeroToZipcode(table)) <==>
      exists i :: 0 <= i < |table| && table[i].zipcode.n < 20000
        && row == table[i].(zipcode := PadZip(table[i].zipcode))
  {
    var padded := AddZeroToZipcode(table);
    FilterByZipcodeMembers(padded, row);
    forall i | 0 <= i < |table|
      ensures InBand(ZipKey(padded[i])) <==> table[i].zipcode.n < 20000
      ensures WithStrZip(padded[i]) == table[i].(zipcode := PadZip(table[i].zipcode))
    {
      IntZipInBandIffBelow20000(table[i].zipcode.n);
    }
  }

  /** Rows with equal zip codes may come out of the sort in any order; any
      such order gives the same results. */
  lemma ResultsIgnoreTieOrder(table: seq<Row>, arrangement: seq<Row>)
    requires multiset(arrangement) == multiset(FilterByZipcode(AddZeroToZipcode(table)))
    ensures Summary(PriceDifferences(arrangement))
      == Summary(PriceDifferences(FilterByZipcode(AddZeroToZipcode(table))))
  {
    var filtered := FilterByZipcode(AddZeroToZipcode(table));
    MapPermutation(RowDelta, arrangement, filtered);
    SummaryPermutationInvariant(PriceDifferences(arrangement), PriceDifferences(filtered));
  }
}
