/** The first-match scan over a list of ids that the library's lookups perform, and the
    operations of java.util.List<Integer> it applies to a member's borrowed ids:
    contains (Dafny's `in`) and remove(Object). */
module Lists {

  datatype Option<+T> = None | Some(value: T)

  /** A scan from the front that stops at the first element equal to x: the position it
      stops at, or None when x is absent. The getBookById and getMemberById loops run it
      over the ids, and remove(Object) runs it to find what to drop. */
  function IndexOf(xs: seq<int>, x: int): (r: Option<nat>)
    ensures r.None? <==> x !in xs
    ensures r.Some? ==> r.value < |xs| && xs[r.value] == x && x !in xs[..r.value]
  {
    if xs == [] then None
    else if xs[0] == x then Some(0)
    else match IndexOf(xs[1..], x)
      case None => None
      case Some(i) =>
        assert xs[..i + 1] == [xs[0]] + xs[1..][..i];
        Some(i + 1)
  }

  /** Any position holding the first occurrence of x is the one IndexOf reports. */
  lemma IndexOfFirst(xs: seq<int>, x: int, i: nat)
    requires i < |xs| && xs[i] == x && x !in xs[..i]
    ensures IndexOf(xs, x) == Some(i)
  {
    var r := IndexOf(xs, x);
    assert forall j :: 0 <= j < i ==> xs[..i][j] == xs[j];
    assert forall j :: 0 <= j < r.value ==> xs[..r.value][j] == xs[j];
  }

  /** List.remove(Object): drops the first occurrence of x; the list is unchanged when x is absent. */
  function RemoveFirst(xs: seq<int>, x: int): (r: seq<int>)
    ensures x !in xs ==> r == xs
    ensures x in xs ==> |r| == |xs| - 1
    ensures x in xs ==> exists i :: 0 <= i < |xs| && xs[i] == x && x !in xs[..i] && r == xs[..i] + xs[i + 1..]
  {
    match IndexOf(xs, x)
    case None => xs
    case Some(i) => xs[..i] + xs[i + 1..]
  }

  /** remove(Object) takes away exactly one copy of x when there is one, and nothing else. */
  lemma RemoveFirstMultiset(xs: seq<int>, x: int)
    ensures multiset(RemoveFirst(xs, x)) == multiset(xs) - multiset{x}
  {
    match IndexOf(xs, x)
    case None =>
    case Some(i) =>
      assert xs == xs[..i] + [xs[i]] + xs[i + 1..];
  }

  ghost predicate NoDuplicates(xs: seq<int>)
  {
    forall i, j :: 0 <= i < j < |xs| ==> xs[i] != xs[j]
  }

  /** Removing an element just appended to a list that did not hold it gives the list back. */
  lemma RemoveFirstOfAppended(xs: seq<int>, x: int)
    requires x !in xs
    ensures RemoveFirst(xs + [x], x) == xs
  {
    assert (xs + [x])[..|xs|] == xs;
    IndexOfFirst(xs + [x], x, |xs|);
  }

  /** The position in xs of the element at position k once position i is dropped. */
  function Skip(i: nat, k: nat): (j: nat)
  {
    if k < i then k else k + 1
  }

  /** Dropping position i shifts every later element one place to the left. */
  lemma DropAt(xs: seq<int>, i: nat)
    requires i < |xs|
    ensures |xs[..i] + xs[i + 1..]| == |xs| - 1
    ensures forall k :: 0 <= k < |xs| - 1 ==> (xs[..i] + xs[i + 1..])[k] == xs[Skip(i, k)]
  {
  }

  /** On a list without duplicates, remove(x) deletes every occurrence of x, keeps every
      other element, and leaves a list without duplicates. */
  lemma RemoveFirstNoDuplicates(xs: seq<int>, x: int)
    requires NoDuplicates(xs)
    ensures NoDuplicates(RemoveFirst(xs, x))
    ensures x !in RemoveFirst(xs, x)
    ensures forall y :: y != x ==> (y in RemoveFirst(xs, x) <==> y in xs)
  {
    match IndexOf(xs, x)
    case None =>
    case Some(i) =>
      var r := xs[..i] + xs[i + 1..];
      assert RemoveFirst(xs, x) == r;
      DropAt(xs, i);
      forall k | 0 <= k < |r|
        ensures r[k] != x
      {
        assert r[k] == xs[Skip(i, k)];
      }
      forall p, q | 0 <= p < q < |r|
        ensures r[p] != r[q]
      {
        assert r[p] == xs[Skip(i, p)] && r[q] == xs[Skip(i, q)];
      }
      forall y | y != x && y in xs
        ensures y in r
      {
        var j :| 0 <= j < |xs| && xs[j] == y;
        var k := if j < i then j else j - 1;
        assert r[k] == xs[Skip(i, k)];
      }
  }

  /** The prefix one element longer is the old prefix with that element appended. */
  lemma PrefixExtend<T>(xs: seq<T>, i: nat)
    requires i < |xs|
    ensures xs[..i + 1] == xs[..i] + [xs[i]]
  {
  }

  /** Appending an absent element keeps a list free of duplicates. */
  lemma AppendNoDuplicates(xs: seq<int>, x: int)
    requires NoDuplicates(xs) && x !in xs
    ensures NoDuplicates(xs + [x])
  {
  }
}
