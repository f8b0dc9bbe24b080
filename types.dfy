/** Shared result and error types of the N-switch coverage engine. */
module Types {

  /** Success value or error value; the Go code returns `(value, error)` pairs. */
  datatype Result<+T, +E> = Success(value: T) | Failure(error: E)

  /** Go's `int` on a 64-bit platform. */
  const MinInt64: int := -0x8000_0000_0000_0000
  const MaxInt64: int := 0x7fff_ffff_ffff_ffff
  newtype int64 = x: int | MinInt64 <= x <= MaxInt64

  /** Go's `n + 1` on `int`: the two's-complement sum, which wraps from the largest value to the smallest. */
  function Inc64(n: int64): (r: int64)
    ensures (r as int - n as int - 1) % 0x1_0000_0000_0000_0000 == 0
    ensures n as int < MaxInt64 ==> r as int == n as int + 1
  {
    if n as int == MaxInt64 then MinInt64 as int64 else n + 1
  }

  function Max(a: int, b: int): int {
    if a < b then b else a
  }

  /** `textType`: whether the text being read is a state or an event. */
  datatype TextType = StatusText | EventText

  /** Why one line of input failed to tokenize (before a line number is attached). */
  datatype LineError = BadFormat | EmptyKey

  /** Errors of `ReadExecutionPath`; each names the file, and the format errors the line. */
  datatype ReadError =
    | InvalidFormat(file: string, line: nat)
    | EmptyKeyword(file: string, line: nat)
    | SizeLimit(file: string)

  /** Error of `CreateStateFlowMap`: the post-transition state and the event of the clash. */
  datatype BuildError = AmbiguousTransition(target: string, event: string)
}
