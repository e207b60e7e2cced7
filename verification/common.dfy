/** Failure values shared by the models, and the C# integer arithmetic that
    both dictionaries use to pick a bucket. */
module Common {

  /** The exceptions the modelled C# code throws, by type and parameter name;
      the name is empty where the code passes none. */
  datatype Error =
    | ArgumentOutOfRange(paramName: string)
    | Argument(paramName: string)
    | ArgumentNull(paramName: string)
    | InvalidOperation
    | Overflow
    | DivideByZero

  /** A value, or the exception that replaced it. */
  datatype Result<T> = Ok(value: T) | Err(error: Error)

  /** `Some(v)` for a value that is present (C# `int?` with a value), `None` for null. */
  datatype Option<T> = None | Some(value: T)

  /** Math.Abs on int. */
  function Abs(a: int): (r: nat)
    ensures r == a || r == -a
  {
    if a < 0 then -a else a
  }

  /** C#'s `/` on int for a positive divisor: it truncates toward zero. */
  function CsDiv(a: int, n: int): int
    requires n > 0
  {
    if a >= 0 then a / n else -((-a) / n)
  }

  /** C#'s `%` on int for a positive divisor. C# divides by truncation, so the
      remainder takes the sign of the dividend; Dafny's `%` is Euclidean and is
      never negative, so the two differ exactly when `a` is negative. */
  function CsRem(a: int, n: int): (r: int)
    requires n > 0
    ensures a >= 0 ==> 0 <= r < n
    ensures a < 0 ==> -n < r <= 0
    ensures a == CsDiv(a, n) * n + r
  {
    if a >= 0 then a % n
    else
      var q, m := (-a) / n, (-a) % n;
      assert -a == q * n + m;
      assert (-q) * n == -(q * n);
      -m
  }

  /** Division with remainder is unique: a quotient and remainder in range are
      THE quotient and remainder. */
  lemma DivModUnique(a: int, n: int, q: int, r: int)
    requires n > 0 && 0 <= r < n && a == q * n + r
    ensures a / n == q && a % n == r
  {
    var q', r' := a / n, a % n;
    assert a == q' * n + r';
    MulBounds(q - q', n);
    assert (q - q') * n == q * n - q' * n;
  }

  /** A nonzero multiple of `n` is at least `n` away from zero. */
  lemma MulBounds(k: int, n: int)
    requires n > 0
    ensures k >= 1 ==> k * n >= n
    ensures k <= -1 ==> k * n <= -n
  {
  }

  /** The bucket both dictionaries compute, `Math.Abs(hash % count)`: always a
      valid index, whatever the sign of the hash code. */
  function BucketIndex(hash: int, count: int): (r: nat)
    requires count > 0
    ensures r < count
    ensures hash >= 0 ==> r == hash % count
    ensures hash < 0 ==> r == (-hash) % count
  {
    Abs(CsRem(hash, count))
  }
}
