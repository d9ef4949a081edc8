/** Shared vocabulary: optional values, bytes, timestamps, the integer widths of the
    Go and Postgres types the handlers use, and the HTTP status codes they answer with. */
module Prelude {

  datatype Option<+T> = None | Some(value: T)

  /** A nullable text column scanned into a Go `string`, or a `*string` read through
      without a nil check: "" when absent. */
  function OrEmpty(o: Option<string>): string
  {
    if o.Some? then o.value else ""
  }

  /** One octet, as Go's `byte`. */
  newtype byte = x: int | 0 <= x < 256

  /** A wall-clock instant in nanoseconds, as Go's `time.Time` compares them. */
  type Time = int

  /** Go's `time.Hour`, in nanoseconds. */
  const Hour: int := 3_600_000_000_000

  const Int32Min: int := -0x8000_0000
  const Int32Max: int := 0x7FFF_FFFF
  const Int64Min: int := -0x8000_0000_0000_0000
  const Int64Max: int := 0x7FFF_FFFF_FFFF_FFFF

  /** True when `x` fits a Postgres INTEGER column (4 bytes). */
  predicate InInt32(x: int)
  {
    Int32Min <= x <= Int32Max
  }

  predicate InInt64(x: int)
  {
    Int64Min <= x <= Int64Max
  }

  /** Go's `int64` (and Postgres BIGINT). */
  type int64 = x: int | Int64Min <= x <= Int64Max

  /** Two's-complement wrap-around of Go's int64 arithmetic. */
  function Wrap64(x: int): (r: int64)
    ensures InInt64(x) ==> r == x
    ensures (r - x) % 0x1_0000_0000_0000_0000 == 0
  {
    (x - Int64Min) % 0x1_0000_0000_0000_0000 + Int64Min
  }

  const StatusOk := 200
  const StatusCreated := 201
  const StatusPartialContent := 206
  const StatusBadRequest := 400
  const StatusUnauthorized := 401
  const StatusNotFound := 404
  const StatusGone := 410
  const StatusRangeNotSatisfiable := 416
  const StatusServerError := 500
}
