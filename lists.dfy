/** The two `java.util.List` operations the coordinator relies on: searching for the
    first element equal to a value, and removing that element. */
module Lists {

  /** The position of the first element of `s` equal to `x`, or -1 when there is none. */
  function IndexOf<T(==)>(s: seq<T>, x: T): (r: int)
    ensures -1 <= r < |s|
    ensures r == -1 <==> x !in s
    ensures 0 <= r ==> s[r] == x && x !in s[..r]
  {
    if s == [] then -1
    else if s[0] == x then 0
    else
      var r := IndexOf(s[1..], x);
      assert s == [s[0]] + s[1..];
      if r == -1 then -1
      else
        assert s[..r + 1] == [s[0]] + s[1..][..r];
        r + 1
  }

  /** `List.remove(Object)`: the first element equal to `x` is removed and the later
      elements move one position down; nothing changes when `x` does not occur. */
  function RemoveFirst<T(==)>(s: seq<T>, x: T): (r: seq<T>)
    ensures x !in s ==> r == s
    ensures x in s ==> |r| == |s| - 1
    ensures x in s ==> forall k :: 0 <= k < IndexOf(s, x) ==> r[k] == s[k]
    ensures x in s ==> forall k :: IndexOf(s, x) <= k < |r| ==> r[k] == s[k + 1]
    ensures multiset(r) == multiset(s) - multiset{x}
  {
    var i := IndexOf(s, x);
    if i == -1 then s
    else
      assert s == s[..i] + [x] + s[i + 1..];
      s[..i] + s[i + 1..]
  }

  /** The position `IndexOf` returns is the only one with its defining properties. */
  lemma IndexOfFirst<T>(s: seq<T>, x: T, index: int)
    requires -1 <= index < |s|
    requires index == -1 <==> x !in s
    requires 0 <= index ==> s[index] == x && forall k :: 0 <= k < index ==> s[k] != x
    ensures index == IndexOf(s, x)
  {
  }
}
