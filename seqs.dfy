/** Sequence operations that the repositories' derived queries are built
    from: selecting rows (WHERE), ordering them (ORDER BY) and finding the
    first row with a property (findById). */
module Seqs {
  import opened Common

  /** The rows of `s` that satisfy `p`, in their original order. */
  function Filter<T>(s: seq<T>, p: T -> bool): (r: seq<T>)
    ensures |r| <= |s|
    ensures forall i :: 0 <= i < |r| ==> p(r[i])
    ensures forall i :: 0 <= i < |r| ==> r[i] in s
    ensures forall i :: 0 <= i < |s| && p(s[i]) ==> s[i] in r
    ensures forall x {:trigger multiset(r)[x]} :: x in s ==> multiset(r)[x] == if p(x) then multiset(s)[x] else 0
  {
    if s == [] then []
    else
      assert s == [s[0]] + s[1..];
      if p(s[0]) then [s[0]] + Filter(s[1..], p)
      else Filter(s[1..], p)
  }

  ghost predicate SortedBy<T>(s: seq<T>, key: T -> int) {
    forall i, j :: 0 <= i < j < |s| ==> key(s[i]) <= key(s[j])
  }

  /** Inserts `x` into a sorted sequence before the first element whose key is
      not smaller. */
  function InsertBy<T(==)>(x: T, s: seq<T>, key: T -> int): (r: seq<T>)
    requires SortedBy(s, key)
    ensures SortedBy(r, key)
    ensures multiset(r) == multiset(s) + multiset{x}
  {
    if s == [] || key(x) <= key(s[0]) then
      [x] + s
    else
      var rest := InsertBy(x, s[1..], key);
      InsertBehindHead(x, s, key, rest);
      [s[0]] + rest
  }

  /** When `x` goes behind the head of `s`, the head stays in front of the
      rest with `x` inserted. */
  lemma InsertBehindHead<T>(x: T, s: seq<T>, key: T -> int, rest: seq<T>)
    requires SortedBy(s, key) && s != [] && key(s[0]) < key(x)
    requires SortedBy(rest, key) && multiset(rest) == multiset(s[1..]) + multiset{x}
    ensures SortedBy([s[0]] + rest, key)
    ensures multiset([s[0]] + rest) == multiset(s) + multiset{x}
  {
    assert s == [s[0]] + s[1..];
    forall i | 0 <= i < |rest| ensures key(s[0]) <= key(rest[i]) {
      assert rest[i] in multiset(rest);
      if rest[i] != x {
        assert rest[i] in multiset(s[1..]);
        var j :| 0 <= j < |s[1..]| && s[1..][j] == rest[i];
        assert s[j + 1] == rest[i];
      }
    }
    var r := [s[0]] + rest;
    forall i, j | 0 <= i < j < |r| ensures key(r[i]) <= key(r[j]) {
      if i > 0 {
        assert r[i] == rest[i - 1] && r[j] == rest[j - 1];
      } else {
        assert r[j] == rest[j - 1];
      }
    }
  }

  /** The elements of `s` ordered by `key` (a stable insertion sort). */
  function SortBy<T(==)>(s: seq<T>, key: T -> int): (r: seq<T>)
    ensures SortedBy(r, key)
    ensures multiset(r) == multiset(s)
    ensures |r| == |s|
  {
    if s == [] then []
    else
      assert s == [s[0]] + s[1..];
      InsertBy(s[0], SortBy(s[1..], key), key)
  }

  /** Sorting keeps exactly the elements that were there. */
  lemma SortByMembers<T>(s: seq<T>, key: T -> int, x: T)
    ensures x in SortBy(s, key) <==> x in s
  {
    assert x in SortBy(s, key) <==> x in multiset(SortBy(s, key));
    assert x in s <==> x in multiset(s);
  }

  /** A query with a WHERE condition `p` and an ORDER BY on `key`: exactly
      the rows that satisfy `p`, each as often as it occurs, ordered. */
  function SelectOrdered<T(==,!new)>(s: seq<T>, p: T -> bool, key: T -> int): (r: seq<T>)
    ensures forall x :: x in r <==> x in s && p(x)
    ensures SortedBy(r, key)
    ensures multiset(r) == multiset(Filter(s, p))
    ensures forall x {:trigger multiset(r)[x]} :: x in s ==> multiset(r)[x] == if p(x) then multiset(s)[x] else 0
  {
    var selected := Filter(s, p);
    forall x ensures x in SortBy(selected, key) <==> x in s && p(x) {
      SortByMembers(selected, key, x);
      if x in selected {
        var i :| 0 <= i < |selected| && selected[i] == x;
      }
      if x in s && p(x) {
        var i :| 0 <= i < |s| && s[i] == x;
      }
    }
    SortBy(selected, key)
  }

  /** The position of the first element that satisfies `p`. */
  function IndexWhere<T>(s: seq<T>, p: T -> bool): (r: Option<nat>)
    ensures r.Some? ==> r.value < |s| && p(s[r.value])
    ensures r.Some? ==> forall j :: 0 <= j < r.value ==> !p(s[j])
    ensures r.None? <==> forall j :: 0 <= j < |s| ==> !p(s[j])
  {
    if s == [] then None
    else if p(s[0]) then Some(0)
    else match IndexWhere(s[1..], p)
      case None => None
      case Some(k) => Some(k + 1)
  }

  /** `s` without its element at position `i`. */
  function RemoveAt<T>(s: seq<T>, i: nat): (r: seq<T>)
    requires i < |s|
    ensures |r| == |s| - 1
    ensures forall j :: 0 <= j < i ==> r[j] == s[j]
    ensures forall j :: i <= j < |r| ==> r[j] == s[j + 1]
  {
    s[..i] + s[i + 1..]
  }

  /** A non-empty set of identities has a member to pick. */
  lemma NonEmptyHasMember(s: set<int>)
    requires s != {}
    ensures exists k :: k in s
  {
    if forall k :: k !in s {
      assert false;
    }
  }
}
