/** What several parts of the server share: optional values, the width of its clock, C++
    division, and the search loop it writes for lists of every kind. */
module Common {

  /** A value that may be absent, such as a NULL pointer. */
  datatype Option<T> = None | Some(value: T)

  /** `unsigned long`, and the largest time it holds. */
  const ULONG := 0x1_0000_0000_0000_0000
  const MAX_TIME := ULONG - 1

  /** C++ division: towards zero. */
  function Quotient(a: int, b: int): int
    requires b > 0
  {
    if a >= 0 then a / b else -(-a / b)
  }

  /** Nothing is lost but a remainder of the sign of `a`. */
  lemma QuotientTruncates(a: int, b: int)
    requires b > 0
    ensures var r := a - b * Quotient(a, b); -b < r < b && (a >= 0 ==> r >= 0) && (a <= 0 ==> r <= 0)
  {
  }

  /** The position of the first element that satisfies `p`, or the length. */
  function FirstWhere<T>(s: seq<T>, p: T -> bool): (r: nat)
    ensures r <= |s| && (r < |s| ==> p(s[r]))
    ensures forall i :: 0 <= i < r ==> !p(s[i])
  {
    if |s| == 0 || p(s[0]) then 0 else 1 + FirstWhere(s[1..], p)
  }

  function FirstIndex<T(==)>(s: seq<T>, x: T): (r: nat)
    ensures r <= |s| && (r < |s| ==> s[r] == x)
    ensures forall i :: 0 <= i < r ==> s[i] != x
  {
    FirstWhere(s, y => y == x)
  }
}
