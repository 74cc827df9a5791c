/** Rows of the pre-aggregation output, as the windowed operators read them. */
module Rows {
  import Int64
  import opened ScalarValues

  type Key = seq<Scalar>

  /** `key` is the group-by columns, `ts` the event time in milliseconds and `inputs`
      the columns the aggregates read. */
  datatype Row = Row(key: Key, ts: int, inputs: seq<Scalar>)

  /** Sentinel for a null timestamp; rows carrying it are skipped. */
  const NULL_TIMESTAMP: int := Int64.MIN

  predicate HasTime(r: Row) {
    NULL_TIMESTAMP < r.ts <= Int64.MAX
  }
}
