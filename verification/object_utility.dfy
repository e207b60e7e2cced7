/** `ObjectUtility.Swap(ref first, ref second)`: exchange two locations. */
module ObjectUtility {

  /** The new contents of the two locations, `(first, second)` after the call. */
  function Swap<T>(first: T, second: T): (r: (T, T))
    ensures r.0 == second && r.1 == first
  {
    (second, first)
  }

  /** Swapping the contents of two locations twice puts both back. */
  lemma SwapTwice<T>(first: T, second: T)
    ensures Swap(Swap(first, second).0, Swap(first, second).1) == (first, second)
  {
  }

  /** `Swap(ref s[i], ref s[j])` on array elements; `i == j` names one location. */
  function SwapAt<T>(s: seq<T>, i: nat, j: nat): (r: seq<T>)
    requires i < |s| && j < |s|
    ensures |r| == |s|
    ensures r[i] == s[j] && r[j] == s[i]
    ensures forall k :: 0 <= k < |s| && k != i && k != j ==> r[k] == s[k]
  {
    var swapped := Swap(s[i], s[j]);
    s[i := swapped.0][j := swapped.1]
  }

  /** Swapping a location with itself changes nothing. */
  lemma SwapAtSelf<T>(s: seq<T>, i: nat)
    requires i < |s|
    ensures SwapAt(s, i, i) == s
  {
  }

  /** Swapping the same two elements twice restores the array. */
  lemma SwapAtTwice<T>(s: seq<T>, i: nat, j: nat)
    requires i < |s| && j < |s|
    ensures SwapAt(SwapAt(s, i, j), i, j) == s
  {
    assert SwapAt(SwapAt(s, i, j), i, j) == s;
  }

  /** Swapping two elements below `n` keeps the elements below `n` as a multiset. */
  lemma SwapAtPermutes<T>(s: seq<T>, i: nat, j: nat, n: nat)
    requires i < n <= |s| && j < n
    ensures multiset(SwapAt(s, i, j)[..n]) == multiset(s[..n])
    ensures SwapAt(s, i, j)[n..] == s[n..]
  {
    var r := SwapAt(s, i, j);
    assert r[..n] == s[..n][i := s[j]][j := s[i]];
  }
}
