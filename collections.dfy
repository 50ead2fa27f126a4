/** The .NET List operations both searches rely on: Remove (first occurrence) and Reverse. */
module Collections {

  /** No element occurs twice. */
  predicate Distinct<T(==)>(s: seq<T>)
  {
    forall i, j :: 0 <= i < j < |s| ==> s[i] != s[j]
  }

  /** `List.IndexOf(x)` for an element that is present: the position of its first occurrence. */
  function IndexOf<T(==)>(s: seq<T>, x: T): (i: nat)
    requires x in s
    ensures i < |s| && s[i] == x && x !in s[..i]
  {
    if s[0] == x then 0
    else
      var j := IndexOf(s[1..], x);
      assert s[..j + 1] == [s[0]] + s[1..][..j];
      j + 1
  }

  /** `List.Remove(x)`: drops the first occurrence of `x`, keeping the order of the rest (see RemoveFirst). */
  function Remove<T(==)>(s: seq<T>, x: T): (r: seq<T>)
    ensures |r| == if x in s then |s| - 1 else |s|
    ensures forall y :: y in r ==> y in s
    ensures forall y :: y in s && y != x ==> y in r
    ensures Distinct(s) ==> Distinct(r) && x !in r
  {
    if s == [] then []
    else if s[0] == x then s[1..]
    else
      var rest := Remove(s[1..], x);
      assert Distinct(s) ==> Distinct(s[1..]) && s[0] !in s[1..];
      [s[0]] + rest
  }

  /**
   * Remove drops exactly the first occurrence of `x`: the result is the list
   * before it followed by the list after it; without `x` the list is returned as is.
   */
  lemma {:induction false} RemoveFirst<T>(s: seq<T>, x: T)
    ensures x !in s ==> Remove(s, x) == s
    ensures x in s ==> Remove(s, x) == s[..IndexOf(s, x)] + s[IndexOf(s, x) + 1..]
  {
    if s != [] && s[0] != x {
      RemoveFirst(s[1..], x);
      if x in s {
        var j := IndexOf(s[1..], x);
        assert s[..j + 1] == [s[0]] + s[1..][..j];
        assert s[j + 2..] == s[1..][j + 1..];
      } else {
        assert s == [s[0]] + s[1..];
      }
    }
  }

  /** `List.Reverse()`: the same elements, last first. */
  function Reverse<T>(s: seq<T>): (r: seq<T>)
    ensures |r| == |s|
    ensures forall i :: 0 <= i < |s| ==> r[i] == s[|s| - 1 - i]
  {
    if s == [] then [] else Reverse(s[1..]) + [s[0]]
  }
}
