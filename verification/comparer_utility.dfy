/** `Comparison<T>`: a value paired with a comparer, read as `comparer.Is(value).LessThan(other)`.

    A comparer is a function `(T, T) -> int` whose sign is the answer, as with
    .NET's `IComparer<T>.Compare`. */
module ComparerUtility {

  /** The sign of a comparison result: -1, 0 or 1. */
  function Sign(n: int): (s: int)
    ensures s == -1 || s == 0 || s == 1
    ensures s < 0 <==> n < 0
    ensures s > 0 <==> n > 0
  {
    if n < 0 then -1 else if n > 0 then 1 else 0
  }

  /** What `IComparer<T>` implementations promise: swapping the arguments flips
      the sign, and "at most" is transitive. Together these make
      `compare(a, b) <= 0` a total preorder. */
  ghost predicate ValidComparer<T(!new)>(compare: (T, T) -> int)
  {
    && (forall a, b :: Sign(compare(a, b)) == -Sign(compare(b, a)))
    && (forall a, b, c :: compare(a, b) <= 0 && compare(b, c) <= 0 ==> compare(a, c) <= 0)
  }

  /** A value and the comparer to compare it with. */
  datatype Comparison<!T> = Comparison(comparer: (T, T) -> int, value: T)
  {
    /** `Compare(value, compareTo) > 0`: the negation of `LessThanOrEqualTo`. */
    function GreaterThan(compareTo: T): (b: bool)
      ensures b <==> !LessThanOrEqualTo(compareTo)
    {
      comparer(value, compareTo) > 0
    }

    /** `Compare(value, compareTo) >= 0`: the negation of `LessThan`, and
        `GreaterThan` widened by exactly the comparison 0. */
    function GreaterThanOrEqualTo(compareTo: T): (b: bool)
      ensures b <==> !LessThan(compareTo)
      ensures b <==> GreaterThan(compareTo) || comparer(value, compareTo) == 0
    {
      comparer(value, compareTo) >= 0
    }

    /** `Compare(value, compareTo) < 0`: the sign of the comparison is -1. */
    function LessThan(compareTo: T): (b: bool)
      ensures b <==> Sign(comparer(value, compareTo)) == -1
    {
      comparer(value, compareTo) < 0
    }

    /** `Compare(value, compareTo) <= 0`: `LessThan` widened by exactly the comparison 0. */
    function LessThanOrEqualTo(compareTo: T): (b: bool)
      ensures b <==> LessThan(compareTo) || comparer(value, compareTo) == 0
      ensures b <==> Sign(comparer(value, compareTo)) != 1
    {
      comparer(value, compareTo) <= 0
    }
  }

  /** `comparer.Is(value)`. */
  function Is<T>(comparer: (T, T) -> int, value: T): (c: Comparison<T>)
    ensures c.comparer == comparer && c.value == value
  {
    Comparison(comparer, value)
  }

  /** With a valid comparer, `a < b` read from `a` is `b > a` read from `b`,
      and likewise for the non-strict predicates. */
  lemma Converse<T(!new)>(comparer: (T, T) -> int, a: T, b: T)
    requires ValidComparer(comparer)
    ensures Is(comparer, a).LessThan(b) <==> Is(comparer, b).GreaterThan(a)
    ensures Is(comparer, a).LessThanOrEqualTo(b) <==> Is(comparer, b).GreaterThanOrEqualTo(a)
  {
    assert Sign(comparer(a, b)) == -Sign(comparer(b, a));
  }

  /** With a valid comparer any two values are ordered one way or the other. */
  lemma Total<T(!new)>(comparer: (T, T) -> int, a: T, b: T)
    requires ValidComparer(comparer)
    ensures Is(comparer, a).LessThanOrEqualTo(b) || Is(comparer, b).LessThanOrEqualTo(a)
    ensures Is(comparer, a).GreaterThanOrEqualTo(b) || Is(comparer, b).GreaterThanOrEqualTo(a)
  {
    assert Sign(comparer(a, b)) == -Sign(comparer(b, a));
  }

  /** With a valid comparer both non-strict predicates are transitive. */
  lemma Transitive<T(!new)>(comparer: (T, T) -> int, a: T, b: T, c: T)
    requires ValidComparer(comparer)
    ensures Is(comparer, a).LessThanOrEqualTo(b) && Is(comparer, b).LessThanOrEqualTo(c) ==> Is(comparer, a).LessThanOrEqualTo(c)
    ensures Is(comparer, a).GreaterThanOrEqualTo(b) && Is(comparer, b).GreaterThanOrEqualTo(c) ==> Is(comparer, a).GreaterThanOrEqualTo(c)
  {
    Converse(comparer, a, b);
    Converse(comparer, b, c);
    Converse(comparer, a, c);
    assert comparer(c, b) <= 0 && comparer(b, a) <= 0 ==> comparer(c, a) <= 0;
  }

  /** `Comparer<int>.Default`, which answers -1, 0 or 1 as `Int32.CompareTo`
      does, is a valid comparer. */
  lemma IntComparerValid()
    ensures ValidComparer((a: int, b: int) => if a < b then -1 else if a > b then 1 else 0)
  {
  }
}
