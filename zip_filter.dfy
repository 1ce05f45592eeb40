/** `filter_by_zipcode`: keep the rows whose zip starts with "00" to "19",
    compared as strings, then order them by the whole zip string. The sort
    pandas uses here is not stable, so only the order of the keys and the
    set of rows are promised, not the order of rows with equal zips. */
module ZipFilter {
  import opened Strings
  import opened Sales

  const BandLow: string := "00"
  const BandHigh: string := "19"

  /** `zip.str[:2].between("00", "19")`, inclusive at both ends: character
      by character, a '0' followed by anything from '0' up, or a '1' alone or
      followed by anything up to '9'. */
  predicate InBand(zip: string)
    ensures InBand(zip) <==> (|zip| > 0
      && ((zip[0] == '0' && |zip| >= 2 && '0' <= zip[1]) || (zip[0] == '1' && (|zip| == 1 || zip[1] <= '9'))))
  {
    var p := Prefix2(zip);
    BandBounds(p);
    assert |p| > 0 ==> p[0] == zip[0];
    assert |p| > 1 ==> p[1] == zip[1];
    LexLe(BandLow, p) && LexLe(p, BandHigh)
  }

  /** The two bounds of the band, compared character by character. */
  lemma BandBounds(p: string)
    requires |p| <= 2
    ensures LexLe(BandLow, p) <==> |p| > 0 && ('0' < p[0] || (p[0] == '0' && |p| == 2 && '0' <= p[1]))
    ensures LexLe(p, BandHigh) <==> |p| == 0 || p[0] < '1' || (p[0] == '1' && (|p| == 1 || p[1] <= '9'))
  {
    if |p| > 0 {
      var q := p[1..];
      assert LexLe(BandLow, p) <==> '0' < p[0] || (p[0] == '0' && LexLe(BandLow[1..], q));
      assert LexLe(p, BandHigh) <==> p[0] < '1' || (p[0] == '1' && LexLe(q, BandHigh[1..]));
      if |q| > 0 {
        assert q[1..] == [];
        assert LexLe(BandLow[1..], q) <==> '0' <= q[0];
        assert LexLe(q, BandHigh[1..]) <==> q[0] <= '9';
      }
    }
  }

  /** For a zip that starts with two digits the string test is the numeric
      one: its two-digit prefix lies between 0 and 19. */
  lemma InBandIsNumericRange(zip: string)
    requires |zip| >= 2 && IsDigit(zip[0]) && IsDigit(zip[1])
    ensures InBand(zip) <==> DecimalValue(zip[..2]) <= 19
  {
    var p := Prefix2(zip);
    assert p == zip[..2];
    assert p == [zip[0], zip[1]];
    assert p[..1] == [zip[0]] && [zip[0]][..0] == [];
    assert DecimalValue([zip[0]]) == DigitValue(zip[0]);
    assert DecimalValue(p) == DigitValue(zip[0]) * 10 + DigitValue(zip[1]);
    assert LexLe(BandLow, p) by {
      if p[0] == '0' {
        assert LexLe(BandLow[1..], p[1..]);
      }
    }
    if zip[0] == '1' {
      assert LexLe(p[1..], BandHigh[1..]);
    }
  }

  /** Zips shorter than two characters (never produced by the padding): the
      empty zip and "0" fall outside the band, "1" falls inside it. */
  lemma ShortZipBand(c: char)
    ensures !InBand("")
    ensures InBand([c]) <==> '0' < c <= '1'
  {
    var p := [c];
    assert Prefix2(p) == p && p[1..] == [];
    assert LexLe(BandLow, p) <==> '0' < c || (c == '0' && LexLe(BandLow[1..], p[1..]));
    assert LexLe(p, BandHigh) <==> c < '1' || (c == '1' && LexLe(p[1..], BandHigh[1..]));
  }

  /** The rows in band, in table order, their zip cells turned into strings. */
  function KeepBand(table: seq<Row>): (kept: seq<Row>)
    ensures |kept| <= |table|
    ensures forall r :: r in kept ==> r.zipcode.ZipStr? && InBand(ZipKey(r))
  {
    if table == [] then []
    else if InBand(ZipKey(table[0])) then [WithStrZip(table[0])] + KeepBand(table[1..])
    else KeepBand(table[1..])
  }

  /** A row is kept exactly when some input row in band became it. */
  lemma {:induction false} KeepBandMembers(table: seq<Row>, row: Row)
    ensures row in KeepBand(table) <==>
      exists i :: 0 <= i < |table| && InBand(ZipKey(table[i])) && row == WithStrZip(table[i])
  {
    if table != [] {
      KeepBandMembers(table[1..], row);
      if exists i :: 0 <= i < |table| && InBand(ZipKey(table[i])) && row == WithStrZip(table[i]) {
        var i :| 0 <= i < |table| && InBand(ZipKey(table[i])) && row == WithStrZip(table[i]);
        if i > 0 {
          assert table[1..][i - 1] == table[i];
        }
      }
    }
  }

  predicate SortedByZip(s: seq<Row>) {
    forall i, j :: 0 <= i < j < |s| ==> LexLe(ZipKey(s[i]), ZipKey(s[j]))
  }

  /** Every row of s has a zip no smaller than key. */
  predicate AllFrom(key: string, s: seq<Row>) {
    forall j :: 0 <= j < |s| ==> LexLe(key, ZipKey(s[j]))
  }

  lemma SortedCons(row: Row, s: seq<Row>)
    requires AllFrom(ZipKey(row), s) && SortedByZip(s)
    ensures SortedByZip([row] + s)
  {
    var t := [row] + s;
    forall i, j | 0 <= i < j < |t|
      ensures LexLe(ZipKey(t[i]), ZipKey(t[j]))
    {
      if i > 0 {
        assert t[i] == s[i - 1] && t[j] == s[j - 1];
      } else {
        assert t[j] == s[j - 1];
      }
    }
  }

  /** A key below the first row of a sorted sequence is below all of it. */
  lemma {:induction false} BelowHeadBelowAll(key: string, s: seq<Row>)
    requires SortedByZip(s) && |s| > 0 && LexLe(key, ZipKey(s[0]))
    ensures AllFrom(key, s)
  {
    forall j | 0 <= j < |s|
      ensures LexLe(key, ZipKey(s[j]))
    {
      if j > 0 {
        LexLeTransitive(key, ZipKey(s[0]), ZipKey(s[j]));
      }
    }
  }

  /** A key below every row of two multisets' worth of rows is below their union. */
  lemma AllFromPermutation(key: string, s: seq<Row>, t: seq<Row>, row: Row)
    requires AllFrom(key, s) && LexLe(key, ZipKey(row))
    requires multiset(t) == multiset(s) + multiset{row}
    ensures AllFrom(key, t)
  {
    forall j | 0 <= j < |t|
      ensures LexLe(key, ZipKey(t[j]))
    {
      assert t[j] in multiset(t);
      if t[j] != row {
        assert t[j] in multiset(s);
        var k :| 0 <= k < |s| && s[k] == t[j];
      }
    }
  }

  function InsertByZip(row: Row, sorted: seq<Row>): (r: seq<Row>)
    requires SortedByZip(sorted)
    ensures SortedByZip(r)
    ensures multiset(r) == multiset(sorted) + multiset{row}
    decreases |sorted|
  {
    if sorted == [] then [row]
    else if LexLe(ZipKey(row), ZipKey(sorted[0])) then
      BelowHeadBelowAll(ZipKey(row), sorted);
      SortedCons(row, sorted);
      [row] + sorted
    else
      var rest := InsertByZip(row, sorted[1..]);
      LexLeTotal(ZipKey(row), ZipKey(sorted[0]));
      assert AllFrom(ZipKey(sorted[0]), sorted[1..]);
      AllFromPermutation(ZipKey(sorted[0]), sorted[1..], rest, row);
      SortedCons(sorted[0], rest);
      assert sorted == [sorted[0]] + sorted[1..];
      [sorted[0]] + rest
  }

  /** Ascending by zip string; a permutation of its argument. */
  function SortByZip(s: seq<Row>): (r: seq<Row>)
    ensures SortedByZip(r)
    ensures multiset(r) == multiset(s)
  {
    if s == [] then []
    else
      assert s == [s[0]] + s[1..];
      InsertByZip(s[0], SortByZip(s[1..]))
  }

  /** `filter_by_zipcode`: the rows in band, ascending by zip. */
  function FilterByZipcode(table: seq<Row>): (filtered: seq<Row>)
    ensures SortedByZip(filtered)
    ensures multiset(filtered) == multiset(KeepBand(table))
    ensures |filtered| <= |table|
  {
    var kept := KeepBand(table);
    var sorted := SortByZip(kept);
    assert |sorted| == |multiset(sorted)| == |multiset(kept)| == |kept|;
    sorted
  }

  /** The output holds exactly the input rows in band, each with its own
      index and prices and its zip as a string. */
  lemma FilterByZipcodeMembers(table: seq<Row>, row: Row)
    ensures row in FilterByZipcode(table) <==>
      exists i :: 0 <= i < |table| && InBand(ZipKey(table[i])) && row == WithStrZip(table[i])
  {
    assert row in FilterByZipcode(table) <==> row in multiset(FilterByZipcode(table));
    assert row in KeepBand(table) <==> row in multiset(KeepBand(table));
    KeepBandMembers(table, row);
  }

  /** The example table of the script's tests: rows 0 and 2 remain, in that order. */
  lemma FilterExample(table: seq<Row>)
    requires table == [
        Row(0, ZipStr("00123"), 0, 0, None),
        Row(1, ZipStr("20123"), 0, 0, None),
        Row(2, ZipStr("15123"), 0, 0, None),
        Row(3, ZipStr("30123"), 0, 0, None)]
    ensures FilterByZipcode(table)
      == [Row(0, ZipStr("00123"), 0, 0, None), Row(2, ZipStr("15123"), 0, 0, None)]
  {
    KeepBandExample(table);
    var kept := [table[0], table[2]];
    assert kept[1..] == [table[2]];
    assert SortByZip([table[2]]) == [table[2]];
    assert LexLe("00123", "15123");
  }

  lemma KeepBandExample(table: seq<Row>)
    requires table == [
        Row(0, ZipStr("00123"), 0, 0, None),
        Row(1, ZipStr("20123"), 0, 0, None),
        Row(2, ZipStr("15123"), 0, 0, None),
        Row(3, ZipStr("30123"), 0, 0, None)]
    ensures KeepBand(table) == [table[0], table[2]]
  {
    BandExamples();
    var rest1 := table[1..];
    var rest2 := rest1[1..];
    var rest3 := rest2[1..];
    assert rest3 == [table[3]] && rest3[1..] == [];
    assert KeepBand(rest3) == [];
    assert rest2 == [table[2], table[3]];
    assert KeepBand(rest2) == [table[2]];
    assert KeepBand(rest1) == [table[2]];
  }

  /** The band test on the example zips. */
  lemma BandExamples()
    ensures InBand("00123") && InBand("15123")
    ensures !InBand("20123") && !InBand("30123")
  {
    assert Prefix2("00123") == "00" && Prefix2("15123") == "15";
    assert Prefix2("20123") == "20" && Prefix2("30123") == "30";
  }
}
