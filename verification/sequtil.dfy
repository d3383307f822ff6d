/** The two Python list primitives the marketplace and the cart rely on:
    finding the first element equal to a value (what `in` and
    `list.remove` scan for) and deleting one position. */
module SeqUtil {

  /** Position of the first element equal to `x`, or `|s|` when `x` does not
      occur in `s`. */
  function IndexOf<T(==)>(s: seq<T>, x: T): (k: nat)
    ensures k <= |s|
    ensures k < |s| <==> x in s
    ensures k < |s| ==> s[k] == x
    ensures forall i :: 0 <= i < k ==> s[i] != x
    decreases |s|
  {
    if |s| == 0 then 0
    else if s[0] == x then 0
    else 1 + IndexOf(s[1..], x)
  }

  /** `s` with the element at position `k` deleted; everything before `k`
      stays in place and everything after it moves down by one. */
  function RemoveAt<T>(s: seq<T>, k: nat): (r: seq<T>)
    requires k < |s|
    ensures |r| == |s| - 1
    ensures forall i :: 0 <= i < k ==> r[i] == s[i]
    ensures forall i :: k <= i < |r| ==> r[i] == s[i + 1]
    ensures multiset(r) == multiset(s) - multiset{s[k]}
  {
    assert s == s[..k] + [s[k]] + s[k + 1..];
    s[..k] + s[k + 1..]
  }

  /** Python's `list.remove(x)`: deletes the first element equal to `x`.
      The list must contain `x`; Python raises ValueError otherwise. */
  function RemoveFirst<T(==)>(s: seq<T>, x: T): (r: seq<T>)
    requires x in s
    ensures |r| == |s| - 1
    ensures multiset(r) == multiset(s) - multiset{x}
    ensures forall i :: 0 <= i < IndexOf(s, x) ==> r[i] == s[i] && s[i] != x
    ensures forall i :: IndexOf(s, x) <= i < |r| ==> r[i] == s[i + 1]
  {
    RemoveAt(s, IndexOf(s, x))
  }
}
