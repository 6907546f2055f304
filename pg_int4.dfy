/** The range of a PostgreSQL `INTEGER` (int4) column, parameter or array element. */
module PgInt4 {
  const Int4Min: int := -2147483648
  const Int4Max: int := 2147483647

  /** A value PostgreSQL accepts for an `INTEGER` parameter; any other is refused with an error. */
  predicate InInt4(x: int) {
    Int4Min <= x <= Int4Max
  }
}
