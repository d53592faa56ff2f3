/** Failure-compatible results for the services' exceptions, Kotlin's nullable values and the
    few JVM numeric conventions the core relies on. */
module Wrappers {

  /** A nullable Kotlin value: `null` is `None`. */
  datatype Option<+T> = None | Some(value: T)

  /** The exceptions the services raise. Kotlin's `require(...)` and the explicit `throw`s of
      "not found" raise IllegalArgumentException; the "already lent" guard and the failed lending
      update raise IllegalStateException; `x!!` on a null raises NullPointerException;
      `LocalDate.of` with a year out of range raises DateTimeException. */
  datatype Error =
    | IllegalArgument(message: string)
    | IllegalState(message: string)
    | NullPointer
    | DateTime(message: string)

  /** The outcome of a call that may throw. */
  datatype Result<+T> = Success(value: T) | Failure(error: Error) {
    predicate IsFailure() {
      Failure?
    }

    function PropagateFailure<U>(): Result<U>
      requires Failure?
    {
      Failure(error)
    }

    function Extract(): T
      requires Success?
    {
      value
    }
  }

  /** The bounds of a Kotlin `Int`. */
  const IntMax: int := 0x7fff_ffff
  const IntMin: int := -0x8000_0000
}

/** Kotlin `Double` arithmetic where the source can divide by zero. Finite values are exact
    reals (IEEE-754 rounding is not modelled); the non-finite values are kept distinct because
    `Double.toInt()` maps them to different integers. */
module Doubles {
  import opened Wrappers

  datatype Double = Finite(value: real) | PositiveInfinity | NegativeInfinity | NaN

  /** `a / b` on doubles, with a zero divisor read as +0.0. */
  function Quotient(a: real, b: real): Double {
    if b != 0.0 then Finite(a / b)
    else if a > 0.0 then PositiveInfinity
    else if a < 0.0 then NegativeInfinity
    else NaN
  }

  /** `d * k` for a positive constant `k`. */
  function Scale(d: Double, k: real): Double
    requires k > 0.0
  {
    match d
    case Finite(x) => Finite(x * k)
    case _ => d
  }

  /** Truncation of a real toward zero. */
  function Truncate(x: real): (n: int)
    ensures 0.0 <= x ==> 0 <= n && n as real <= x < n as real + 1.0
    ensures x < 0.0 ==> n <= 0 && n as real - 1.0 < x <= n as real
  {
    if x >= 0.0 then x.Floor else -((-x).Floor)
  }

  /** Kotlin's `Double.toInt()`: truncates toward zero, saturates at the `Int` bounds, maps NaN to 0. */
  function ToInt(d: Double): (n: int)
    ensures IntMin <= n <= IntMax
    ensures d.NaN? ==> n == 0
    ensures d.PositiveInfinity? ==> n == IntMax
    ensures d.NegativeInfinity? ==> n == IntMin
    ensures d.Finite? && IntMin <= Truncate(d.value) <= IntMax ==> n == Truncate(d.value)
  {
    match d
    case NaN => 0
    case PositiveInfinity => IntMax
    case NegativeInfinity => IntMin
    case Finite(x) =>
      var t := Truncate(x);
      if t > IntMax then IntMax else if t < IntMin then IntMin else t
  }
}
