/** A row of a delimited text file, as `csv.DictReader` yields it: column name to value. */
module Rows {

  type Row = map<string, string>

  /** `row.get(key, "")`. A value `csv.DictReader` leaves as `None` is modelled
      as a missing key, since every reader of a row maps it to "" (`or ""`). */
  function Get(row: Row, key: string): string {
    if key in row then row[key] else ""
  }

  /** `row.get(key, default)`. */
  function GetOr(row: Row, key: string, default: string): string {
    if key in row then row[key] else default
  }
}
