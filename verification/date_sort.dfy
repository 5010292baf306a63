/** The listing order: articles sorted by their front-matter date, oldest first. */
module DateSort {
  import opened Records

  /**
    Places `a` into an oldest-first list after every article not newer than it.
   */
  function Insert(a: ArticleItem, s: seq<ArticleItem>): (r: seq<ArticleItem>)
    requires WellDated(a) && SortedByDate(s)
    ensures SortedByDate(r)
    ensures multiset(r) == multiset(s) + multiset{a}
  {
    if |s| == 0 then [a]
    else if CompareByDate(a, s[0]) < 0 then
      ComparatorOrders(a, s[0]);
      InsertFront(a, s);
      [a] + s
    else
      ComparatorOrders(a, s[0]);
      SortedTail(s);
      var rest := Insert(a, s[1..]);
      InsertBehind(a, s, rest);
      assert s == [s[0]] + s[1..];
      [s[0]] + rest
  }

  /** What the comparator's sign says about the two articles' order. */
  lemma ComparatorOrders(a: ArticleItem, b: ArticleItem)
    requires WellDated(a) && WellDated(b)
    ensures CompareByDate(a, b) < 0 ==> NotAfter(a, b)
    ensures CompareByDate(a, b) >= 0 ==> NotAfter(b, a)
  {
  }

  lemma SortedTail(s: seq<ArticleItem>)
    requires SortedByDate(s) && |s| > 0
    ensures SortedByDate(s[1..])
  {
    var t := s[1..];
    forall i, j | 0 <= i < j < |t|
      ensures NotAfter(t[i], t[j])
    {
      assert t[i] == s[i + 1] && t[j] == s[j + 1];
    }
  }

  lemma InsertFront(a: ArticleItem, s: seq<ArticleItem>)
    requires WellDated(a) && SortedByDate(s) && |s| > 0
    requires NotAfter(a, s[0])
    ensures SortedByDate([a] + s)
  {
    var r := [a] + s;
    forall i, j | 0 <= i < j < |r|
      ensures NotAfter(r[i], r[j])
    {
      if i == 0 && j > 1 {
        NotAfterTransitive(a, s[0], s[j - 1]);
      }
    }
  }

  lemma InsertBehind(a: ArticleItem, s: seq<ArticleItem>, rest: seq<ArticleItem>)
    requires WellDated(a) && SortedByDate(s) && |s| > 0
    requires NotAfter(s[0], a)
    requires SortedByDate(rest) && multiset(rest) == multiset(s[1..]) + multiset{a}
    ensures SortedByDate([s[0]] + rest)
  {
    var r := [s[0]] + rest;
    forall i, j | 0 <= i < j < |r|
      ensures NotAfter(r[i], r[j])
    {
      if i == 0 {
        var x := rest[j - 1];
        assert x in multiset(rest);
        if x != a {
          assert x in multiset(s[1..]);
          HeadNotAfterTail(s, x);
        }
      }
    }
  }

  /** The first article of a sorted list is not newer than any later one. */
  lemma HeadNotAfterTail(s: seq<ArticleItem>, x: ArticleItem)
    requires SortedByDate(s) && |s| > 0
    requires x in s[1..]
    ensures NotAfter(s[0], x)
  {
    var k :| 0 <= k < |s[1..]| && s[1..][k] == x;
    assert s[k + 1] == x;
  }

  /** Sorts a list of well-dated articles by date, oldest first. */
  function SortByDate(s: seq<ArticleItem>): (r: seq<ArticleItem>)
    requires AllWellDated(s)
    ensures SortedByDate(r)
    ensures multiset(r) == multiset(s)
    ensures |r| == |s|
  {
    if |s| == 0 then []
    else
      var front := s[..|s| - 1];
      assert s == front + [s[|s| - 1]];
      var r := Insert(s[|s| - 1], SortByDate(front));
      assert |r| == |multiset(r)|;
      r
  }

  /**
    A list is oldest-first exactly when its dates parse and the comparator
    allows every neighbouring pair: the local check a sort establishes is
    enough for the whole list.
   */
  lemma SortedIffAdjacent(s: seq<ArticleItem>)
    ensures SortedByDate(s) <==>
      && AllWellDated(s)
      && forall i :: 0 <= i < |s| - 1 ==> CompareByDate(s[i], s[i + 1]) <= 0
  {
    if AllWellDated(s) && forall i :: 0 <= i < |s| - 1 ==> CompareByDate(s[i], s[i + 1]) <= 0 {
      assert forall k :: 0 <= k < |s| - 1 ==> NotAfter(s[k], s[k + 1]);
      forall i, j | 0 <= i < j < |s|
        ensures NotAfter(s[i], s[j])
      {
        AdjacentChain(s, i, j);
      }
    }
  }

  lemma {:induction false} AdjacentChain(s: seq<ArticleItem>, i: nat, j: nat)
    requires AllWellDated(s)
    requires forall k :: 0 <= k < |s| - 1 ==> NotAfter(s[k], s[k + 1])
    requires i <= j < |s|
    ensures NotAfter(s[i], s[j])
    decreases j - i
  {
    if i < j {
      AdjacentChain(s, i + 1, j);
      NotAfterTransitive(s[i], s[i + 1], s[j]);
    }
  }
}
