// The java.util.ArrayList operations a group's member list uses.

module Lists {

  /** ArrayList.indexOf: the first position holding `x`, or |s| when there is none. */
  function IndexOf<T(==)>(s: seq<T>, x: T): (k: nat)
    ensures k <= |s|
    ensures k < |s| ==> s[k] == x
    ensures forall j :: 0 <= j < k ==> s[j] != x
    decreases |s|
  {
    if s == [] then 0 else if s[0] == x then 0 else 1 + IndexOf(s[1..], x)
  }

  /** The list with position `k` removed; unchanged when `k` is past the end. */
  function RemoveAt<T>(s: seq<T>, k: nat): seq<T>
  {
    if k < |s| then s[..k] + s[k + 1..] else s
  }

  /** ArrayList.remove(Object): remove the first occurrence of `x`, if any. */
  function RemoveFirst<T(==)>(s: seq<T>, x: T): (r: seq<T>)
    ensures |r| == if x in s then |s| - 1 else |s|
    ensures x !in s ==> r == s
  {
    RemoveAt(s, IndexOf(s, x))
  }

  /** Removing by value takes away exactly one copy of a value that is present,
      and leaves the list as it was otherwise. */
  lemma RemoveFirstMultiset<T>(s: seq<T>, x: T)
    ensures x in s ==> multiset(RemoveFirst(s, x)) == multiset(s) - multiset{x}
    ensures x !in s ==> RemoveFirst(s, x) == s
  {
    var k := IndexOf(s, x);
    if k < |s| {
      assert s == s[..k] + [s[k]] + s[k + 1..];
    } else {
      assert x !in s;
    }
  }

  /** When no earlier position holds the value at `k`, removing that value by value is
      removing position `k`. */
  lemma RemoveFirstIsRemoveAt<T>(s: seq<T>, k: nat)
    requires k < |s|
    requires forall j :: 0 <= j < k ==> s[j] != s[k]
    ensures RemoveFirst(s, s[k]) == RemoveAt(s, k)
  {
    var i := IndexOf(s, s[k]);
    assert i == k;
  }

  /** Removing a position shortens the list by one and keeps the order of the rest. */
  lemma RemoveAtShape<T>(s: seq<T>, k: nat)
    requires k < |s|
    ensures |RemoveAt(s, k)| == |s| - 1
    ensures forall j :: 0 <= j < k ==> RemoveAt(s, k)[j] == s[j]
    ensures forall j :: k <= j < |s| - 1 ==> RemoveAt(s, k)[j] == s[j + 1]
  {
  }

  /** Removing a position never introduces a value. */
  lemma RemoveAtWithin<T>(s: seq<T>, k: nat)
    ensures forall x :: x in RemoveAt(s, k) ==> x in s
  {
    if k < |s| {
      assert s == s[..k] + [s[k]] + s[k + 1..];
    }
  }
}
