/** One row of the car-sales table, as far as the price analysis reads it. */
module Sales {
  import opened Strings

  datatype Option<T> = None | Some(value: T)

  /** A zip-code cell: the CSV loader yields integers (leading zeros lost),
      a table built by hand may already hold strings. */
  datatype ZipCell = ZipInt(n: nat) | ZipStr(s: string)

  /** One row: its position in the loaded table (the pandas index, which
      filtering and sorting keep), the zip-code cell, the two prices and the
      `price_difference` column, absent until the analysis writes it. */
  datatype Row = Row(
    index: nat,
    zipcode: ZipCell,
    salePrice: int,
    resellPrice: int,
    priceDifference: Option<int>)

  /** `astype(str)` on a zip cell: an int is written in decimal, a string is kept. */
  function AsStr(z: ZipCell): (s: string)
    ensures z.ZipStr? ==> s == z.s
    ensures z.ZipInt? ==> AllDigits(s) && DecimalValue(s) == z.n
  {
    match z
    case ZipInt(n) => DecimalRoundTrip(n); DecimalString(n)
    case ZipStr(s) => s
  }

  /** The string a row's zip code compares by. */
  function ZipKey(row: Row): string {
    AsStr(row.zipcode)
  }

  /** The row after `astype(str)` on its zip column: the same text, now a string cell. */
  function WithStrZip(row: Row): (r: Row)
    ensures r.zipcode.ZipStr? && ZipKey(r) == ZipKey(row)
    ensures r.index == row.index && r.salePrice == row.salePrice
    ensures r.resellPrice == row.resellPrice && r.priceDifference == row.priceDifference
  {
    row.(zipcode := ZipStr(AsStr(row.zipcode)))
  }
}
