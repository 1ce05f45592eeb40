/** `add_zero_to_zipcode`: turn every zip cell into a string and left-pad it
    with '0' to five characters. The argument is a value, so the caller's
    table is untouched, as the copy in the source guarantees. */
module ZipPadding {
  import opened Strings
  import opened Sales

  const ZipWidth: nat := 5

  /** One cell: `str(z).zfill(5)`. */
  function PadZip(z: ZipCell): (p: ZipCell)
    ensures p.ZipStr?
    ensures |p.s| == if |AsStr(z)| < ZipWidth then ZipWidth else |AsStr(z)|
  {
    ZipStr(ZFill(AsStr(z), ZipWidth))
  }

  /** Every row in the same order, only its zip cell padded. */
  function AddZeroToZipcode(table: seq<Row>): (padded: seq<Row>)
    ensures |padded| == |table|
    ensures forall i :: 0 <= i < |table| ==>
      && padded[i].index == table[i].index
      && padded[i].salePrice == table[i].salePrice
      && padded[i].resellPrice == table[i].resellPrice
      && padded[i].priceDifference == table[i].priceDifference
      && padded[i].zipcode == PadZip(table[i].zipcode)
  {
    if table == [] then []
    else [table[0].(zipcode := PadZip(table[0].zipcode))] + AddZeroToZipcode(table[1..])
  }

  /** An integer zip below 100000 becomes exactly five digits that still read
      as the same number: 123 -> "00123", 1234 -> "01234", 12345 -> "12345". */
  lemma IntZipPadsToFive(n: nat)
    requires n < 100000
    ensures |PadZip(ZipInt(n)).s| == ZipWidth
    ensures AllDigits(PadZip(ZipInt(n)).s)
    ensures DecimalValue(PadZip(ZipInt(n)).s) == n
  {
    assert Pow10(5) == 100000;
    DecimalStringLength(n, 5);
    ZFillKeepsValue(DecimalString(n), ZipWidth);
  }

  /** A zip string of at most five characters without a sign becomes
      5 - len zeros followed by the original text. */
  lemma ShortZipIsLeftPadded(z: ZipCell)
    requires |AsStr(z)| <= ZipWidth
    requires AsStr(z) == [] || !IsSign(AsStr(z)[0])
    ensures |PadZip(z).s| == ZipWidth
    ensures forall i :: 0 <= i < ZipWidth - |AsStr(z)| ==> PadZip(z).s[i] == '0'
    ensures PadZip(z).s[ZipWidth - |AsStr(z)|..] == AsStr(z)
  {
    ZFillPadsUnsigned(AsStr(z), ZipWidth);
  }

  /** A zip of five characters or more passes through unchanged (no truncation). */
  lemma LongZipUnchanged(z: ZipCell)
    requires |AsStr(z)| >= ZipWidth
    ensures PadZip(z) == ZipStr(AsStr(z))
  {
    ZFillNeverTruncates(AsStr(z), ZipWidth);
  }

  /** Padding an already padded table changes nothing. */
  lemma {:induction false} AddZeroIdempotent(table: seq<Row>)
    ensures AddZeroToZipcode(AddZeroToZipcode(table)) == AddZeroToZipcode(table)
  {
    var once := AddZeroToZipcode(table);
    var twice := AddZeroToZipcode(once);
    forall i | 0 <= i < |table|
      ensures twice[i] == once[i]
    {
      ZFillIdempotent(AsStr(table[i].zipcode), ZipWidth);
    }
  }

  /** The example table of the script's tests. */
  lemma PaddingExample()
    ensures AddZeroToZipcode([
        Row(0, ZipInt(123), 0, 0, None),
        Row(1, ZipInt(1234), 0, 0, None),
        Row(2, ZipInt(12345), 0, 0, None)])
      == [
        Row(0, ZipStr("00123"), 0, 0, None),
        Row(1, ZipStr("01234"), 0, 0, None),
        Row(2, ZipStr("12345"), 0, 0, None)]
  {
    assert DecimalString(123) == "123";
    assert DecimalString(1234) == "1234";
    assert DecimalString(12345) == "12345";
    assert ZFill("123", 5) == "00123";
    assert ZFill("1234", 5) == "01234";
  }
}
