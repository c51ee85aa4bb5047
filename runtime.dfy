/** Swift runtime behaviour the rank code depends on: optional values,
    runtime traps, and checked Int64 arithmetic. */
module Runtime {

  datatype Option<+T> = None | Some(value: T)

  /** The outcome of Swift code that may stop at a runtime trap: an empty
      range handed to `Int64.random(in:)`, an Int64 overflow, a zero stride,
      or an array subscript out of bounds. A trap ends the process, so
      nothing is promised about the store after one. */
  datatype Checked<+T> = Ok(value: T) | Trap {
    predicate IsFailure() { Trap? }

    function PropagateFailure<U>(): Checked<U>
      requires Trap?
    {
      Trap
    }

    function Extract(): T
      requires Ok?
    {
      value
    }
  }

  const INT64_MIN: int := -0x8000_0000_0000_0000
  const INT64_MAX: int := 0x7fff_ffff_ffff_ffff

  predicate InInt64(x: int) {
    INT64_MIN <= x <= INT64_MAX
  }

  /** Int64 subtraction: traps on overflow. */
  function Sub(a: int, b: int): Checked<int> {
    if InInt64(a - b) then Ok(a - b) else Trap
  }

  /** Int64 multiplication: traps on overflow. */
  function Mul(a: int, b: int): Checked<int> {
    if InInt64(a * b) then Ok(a * b) else Trap
  }

  /** Swift's `abs` on Int64: `abs(Int64.min)` overflows and traps. */
  function Abs(x: int): Checked<int> {
    if x == INT64_MIN then Trap else Ok(if x < 0 then -x else x)
  }

  /** The distance between two integers, without overflow. */
  function Dist(a: int, b: int): int {
    if a >= b then a - b else b - a
  }

  /** `abs(a - b)` evaluated on Int64, with both of its traps. */
  function AbsDiff(a: int, b: int): (r: Checked<int>)
    ensures r.Ok? <==> InInt64(a - b) && a - b != INT64_MIN
    ensures r.Ok? ==> r.value >= 0 && (r.value == a - b || r.value == b - a)
  {
    var d :- Sub(a, b);
    Abs(d)
  }

  /** When `abs(a - b)` does not trap, it is the distance between a and b. */
  lemma AbsDiffIsDist(a: int, b: int)
    ensures AbsDiff(a, b).Ok? ==> AbsDiff(a, b).value == Dist(a, b)
  {
  }
}
