/** Failure-carrying values and the machine integer ranges of the source. */
module Results {
  import opened Arithmetic

  datatype Option<+T> = None | Some(value: T)

  datatype Result<+T, +E> = Ok(value: T) | Err(error: E) {
    predicate IsFailure() {
      Err?
    }

    function PropagateFailure<U>(): Result<U, E>
      requires Err?
    {
      Err(error)
    }

    function Extract(): T
      requires Ok?
    {
      value
    }
  }

  const U64_MAX: nat := 0xFFFF_FFFF_FFFF_FFFF
  const I128_MAX: int := 0x7FFF_FFFF_FFFF_FFFF_FFFF_FFFF_FFFF_FFFF
  const I128_MIN: int := -I128_MAX - 1

  type U64 = n: nat | n <= U64_MAX

  /** A checked machine operation: the exact integer, or nothing when it does not fit. */
  function CheckedU64(exact: int): Option<U64> {
    if 0 <= exact <= U64_MAX then Some(exact) else None
  }

  function CheckedI128(exact: int): Option<int> {
    if I128_MIN <= exact <= I128_MAX then Some(exact) else None
  }

  /** `checked_mul`, lifted so that a chain stops at its first overflow. */
  function MulI128(a: Option<int>, b: Option<int>): Option<int> {
    if a.None? || b.None? then None else CheckedI128(a.value * b.value)
  }

  function AddI128(a: Option<int>, b: int): Option<int> {
    if a.None? then None else CheckedI128(a.value + b)
  }

  /** Division rounding toward zero, as Rust's `/` on signed integers. */
  function TruncatedDiv(a: int, b: int): int
    requires b != 0
  {
    if a >= 0 then a / b else -((-a) / b)
  }

  function DivI128(a: int, b: int): Option<int> {
    if b == 0 then None else CheckedI128(TruncatedDiv(a, b))
  }

  function RemI128(a: int, b: int): Option<int> {
    if b == 0 || DivI128(a, b).None? then None else Some(a - b * TruncatedDiv(a, b))
  }

  /** On a nonnegative dividend and a positive divisor these are the usual quotient and remainder. */
  lemma DivRemOfPositive(a: nat, b: nat)
    requires 0 < b && a <= I128_MAX
    ensures DivI128(a, b) == Some(a / b) && RemI128(a, b) == Some(a % b)
  {
    DivisionIdentity(a, b);
    MulAtLeast(a / b, b);
    assert b * (a / b) == (a / b) * b;
  }
}
