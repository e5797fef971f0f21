/** Small list queries the game takes from C#'s List and LINQ. */
module Seqs {
  import opened Optional

  /** `LastOrDefault`: the last element, or null for an empty list. */
  function LastOrNone<T>(s: seq<T>): (r: Option<T>)
    ensures r.None? <==> |s| == 0
    ensures r.Some? ==> r.value == s[|s| - 1]
  {
    if |s| == 0 then None else Some(s[|s| - 1])
  }

  /** `List.LastIndexOf`: the index of the last occurrence of `x`, or -1. */
  function LastIndexOf<T(==)>(s: seq<T>, x: T): (r: int)
    ensures -1 <= r < |s|
    ensures r == -1 <==> x !in s
    ensures 0 <= r ==> s[r] == x
    ensures forall j :: r < j < |s| ==> s[j] != x
  {
    if |s| == 0 then -1
    else if s[|s| - 1] == x then |s| - 1
    else LastIndexOf(s[..|s| - 1], x)
  }

  predicate Distinct<T(==)>(s: seq<T>)
  {
    forall i, j :: 0 <= i < j < |s| ==> s[i] != s[j]
  }

  /** `List.IndexOf`: the index of the first occurrence of `x`, or -1. */
  function IndexOf<T(==)>(s: seq<T>, x: T): (r: int)
    ensures -1 <= r < |s|
    ensures r == -1 <==> x !in s
    ensures 0 <= r ==> s[r] == x && x !in s[..r]
  {
    if |s| == 0 then -1
    else if s[0] == x then 0
    else
      var k := IndexOf(s[1..], x);
      assert s == [s[0]] + s[1..];
      if k == -1 then -1
      else
        assert s[..k + 1] == [s[0]] + s[1..][..k];
        k + 1
  }

  /** `List.Remove`: drop the first occurrence of `x`, keeping the order of the rest. */
  function RemoveFirst<T(==)>(s: seq<T>, x: T): (r: seq<T>)
    ensures x !in s ==> r == s
    ensures x in s ==> |r| == |s| - 1 && r == s[..IndexOf(s, x)] + s[IndexOf(s, x) + 1..]
    ensures multiset(r) == multiset(s) - multiset{x}
  {
    if x !in s then s
    else
      var k := IndexOf(s, x);
      assert s == s[..k] + [x] + s[k + 1..];
      s[..k] + s[k + 1..]
  }

  /** Removing an element from a list without repeats leaves no repeats and no copy of it. */
  lemma RemoveFirstDistinct<T>(s: seq<T>, x: T)
    requires Distinct(s) && x in s
    ensures Distinct(RemoveFirst(s, x)) && x !in RemoveFirst(s, x)
  {
    var k := IndexOf(s, x);
    var r := s[..k] + s[k + 1..];
    assert RemoveFirst(s, x) == r;
    forall i | 0 <= i < |r| ensures r[i] == s[Skip(i, k)] { }
    assert s[k] == x;
  }

  /** The index in the original list of position `i` once position `k` is removed. */
  function Skip(i: int, k: int): (r: int)
    ensures i < r <==> k <= i
  {
    if i < k then i else i + 1
  }

  lemma DistinctTail<T>(s: seq<T>)
    requires Distinct(s) && |s| > 0
    ensures Distinct(s[1..]) && s[0] !in s[1..]
  {
    assert forall k :: 0 <= k < |s[1..]| ==> s[1..][k] == s[k + 1];
  }

  lemma DistinctCons<T>(x: T, s: seq<T>)
    requires Distinct(s) && x !in s
    ensures Distinct([x] + s)
  {
    var r := [x] + s;
    forall i, j | 0 <= i < j < |r| ensures r[i] != r[j] {
      assert r[j] == s[j - 1];
      if i > 0 { assert r[i] == s[i - 1]; }
    }
  }

  lemma DistinctPrefix<T>(s: seq<T>, n: nat)
    requires Distinct(s) && n <= |s|
    ensures Distinct(s[..n])
  {
    assert forall k :: 0 <= k < n ==> s[..n][k] == s[k];
  }

  /** In a list without repeats, the last element is found last, and removing it leaves the rest. */
  lemma DistinctLastIndex<T>(s: seq<T>)
    requires Distinct(s) && |s| > 0
    ensures IndexOf(s, s[|s| - 1]) == |s| - 1
    ensures RemoveFirst(s, s[|s| - 1]) == s[..|s| - 1]
  {
    var k := IndexOf(s, s[|s| - 1]);
    assert s[..|s| - 1] + s[|s|..] == s[..|s| - 1];
  }

  lemma PrefixOfPrefix<T>(s: seq<T>, m: nat, n: nat)
    requires n <= m <= |s|
    ensures s[..m][..n] == s[..n]
  {
  }

  lemma TailIndex<T>(s: seq<T>, j: nat)
    requires 0 < j < |s|
    ensures s[1..][j - 1] == s[j]
  {
  }

  /** Counting from the end, dropping the last element shifts every other index by one. */
  lemma FromEndIndex<T>(s: seq<T>, j: nat)
    requires 0 < j < |s|
    ensures s[..|s| - 1][|s| - 1 - 1 - (j - 1)] == s[|s| - 1 - j]
  {
  }

  /** What a prefix holds, the longer list holds. */
  lemma PrefixMembers<T>(a: seq<T>, b: seq<T>)
    requires a <= b
    ensures forall x :: x in a ==> x in b
  {
    assert forall k :: 0 <= k < |a| ==> a[k] == b[k];
  }

  /** Taking one more from a list with x in front takes x and then as many from the rest. */
  lemma ConsTake<T>(x: T, s: seq<T>, m: nat)
    requires m <= |s|
    ensures ([x] + s)[..m + 1] == [x] + s[..m]
  {
  }

  /** A list is any prefix of it followed by the rest. */
  lemma PrefixRest<T>(a: seq<T>, b: seq<T>)
    requires a <= b
    ensures b == a + b[|a|..]
  {
    assert b == b[..|a|] + b[|a|..];
  }

  /** When the element before the last one differs from the last, both are found where they stand. */
  lemma LastIndexOfBeforeLast<T>(s: seq<T>)
    requires |s| >= 2 && s[|s| - 2] != s[|s| - 1]
    ensures LastIndexOf(s, s[|s| - 2]) == |s| - 2
    ensures LastIndexOf(s, s[LastIndexOf(s, s[|s| - 2]) + 1]) == |s| - 1
  {
  }
}
