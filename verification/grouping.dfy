/**
  Grouping the date-sorted listing into one bucket per category, each bucket
  keeping the listing's order.
 */
module Grouping {
  import opened Wrappers
  import opened Records

  type Buckets = map<string, seq<ArticleItem>>

  /**
    One step of the grouping loop: `a` goes at the end of its category's
    bucket, which is opened empty if absent; every other bucket is untouched.
   */
  function AddToBucket(g: Buckets, a: ArticleItem): (r: Buckets)
    ensures forall c :: c in r <==> c in g || c == a.category
    ensures r[a.category] == (if a.category in g then g[a.category] else []) + [a]
    ensures forall c :: c in g && c != a.category ==> r[c] == g[c]
  {
    if a.category in g then g[a.category := g[a.category] + [a]]
    else g[a.category := [a]]
  }

  /**
    Groups a listing by visiting its articles in order, as the `forEach` in
    `getCategorisedArticles` does, on a map that starts with no keys at all.
    Every article's category gets a key, and no bucket is empty.
   */
  function Group(s: seq<ArticleItem>): (g: Buckets)
    ensures forall i :: 0 <= i < |s| ==> s[i].category in g
    ensures forall c :: c in g ==> |g[c]| > 0
  {
    if |s| == 0 then map[]
    else
      AddToBucket(Group(s[..|s| - 1]), s[|s| - 1])
  }

  /**
    The names every plain JavaScript object inherits from `Object.prototype`.
    Looking one of them up in a fresh `{}` finds a function, or the prototype
    object itself: a value that is truthy and has no `push`.
   */
  const InheritedKeys: set<string> := {
    "constructor", "__proto__", "__defineGetter__", "__defineSetter__",
    "__lookupGetter__", "__lookupSetter__", "hasOwnProperty", "isPrototypeOf",
    "propertyIsEnumerable", "toString", "toLocaleString", "valueOf"
  }

  /** The grouping loop stopped: `push` was called on the inherited value of this key. */
  datatype GroupError = TypeError(category: string)

  predicate NoInheritedCategory(s: seq<ArticleItem>) {
    forall i :: 0 <= i < |s| ==> s[i].category !in InheritedKeys
  }

  /**
    The grouping loop as it runs on a plain `{}`: an article whose category
    is an inherited name finds a truthy value, so no array is opened and the
    `push` on it throws; articles after it are never visited.
   */
  function GroupInPlainObject(s: seq<ArticleItem>): (r: Result<Buckets, GroupError>)
    ensures r.Err? ==> r.error.category in InheritedKeys
  {
    if |s| == 0 then Ok(map[])
    else
      var a := s[|s| - 1];
      match GroupInPlainObject(s[..|s| - 1])
      case Err(e) => Err(e)
      case Ok(g) =>
        if a.category in InheritedKeys then Err(TypeError(a.category))
        else Ok(AddToBucket(g, a))
  }

  /**
    On a plain object the loop fails exactly when some category is an
    inherited name, reporting the first such article's category; otherwise
    it builds the same buckets as on a map with no keys.
   */
  lemma {:induction false} PlainObjectGrouping(s: seq<ArticleItem>)
    ensures GroupInPlainObject(s).Ok? <==> NoInheritedCategory(s)
    ensures GroupInPlainObject(s).Ok? ==> GroupInPlainObject(s).value == Group(s)
    ensures GroupInPlainObject(s).Err? ==>
      exists i :: 0 <= i < |s| && s[i].category == GroupInPlainObject(s).error.category
        && s[i].category in InheritedKeys && NoInheritedCategory(s[..i])
  {
    if |s| > 0 {
      var front, a := s[..|s| - 1], s[|s| - 1];
      PlainObjectGrouping(front);
      var r := GroupInPlainObject(s);
      if GroupInPlainObject(front).Err? {
        var i :| 0 <= i < |front| && front[i].category == r.error.category
          && NoInheritedCategory(front[..i]);
        assert s[i] == front[i] && s[..i] == front[..i];
        assert s[i].category == r.error.category && NoInheritedCategory(s[..i]);
        assert !NoInheritedCategory(s) by {
          assert s[i].category in InheritedKeys;
        }
      } else if a.category in InheritedKeys {
        assert s[..|s| - 1] == front;
        assert s[|s| - 1].category == r.error.category;
      } else {
        assert NoInheritedCategory(s) by {
          forall i | 0 <= i < |s|
            ensures s[i].category !in InheritedKeys
          {
            if i < |s| - 1 {
              assert s[i] == front[i];
            }
          }
        }
      }
    }
  }

  /** The categories of `s` are those of all but its last article, and the last one's. */
  lemma HasCategorySnoc(s: seq<ArticleItem>)
    requires |s| > 0
    ensures forall c :: HasCategory(s, c) <==> HasCategory(s[..|s| - 1], c) || s[|s| - 1].category == c
  {
    var front, a := s[..|s| - 1], s[|s| - 1];
    forall c | HasCategory(s, c) && a.category != c
      ensures HasCategory(front, c)
    {
      var i :| 0 <= i < |s| && s[i].category == c;
      assert front[i].category == c;
    }
    forall c | HasCategory(front, c)
      ensures HasCategory(s, c)
    {
      var i :| 0 <= i < |front| && front[i].category == c;
      assert s[i].category == c;
    }
  }

  /** `a` alone if it is in category `c`, otherwise nothing. */
  function Keep(a: ArticleItem, c: string): seq<ArticleItem> {
    if a.category == c then [a] else []
  }

  /** `a` alone unless it is in category `c`. */
  function Drop(a: ArticleItem, c: string): seq<ArticleItem> {
    if a.category == c then [] else [a]
  }

  /** Reference definition: the articles of `s` in category `c`, in their order in `s`. */
  function Bucket(s: seq<ArticleItem>, c: string): (b: seq<ArticleItem>)
    ensures |b| <= |s|
  {
    if |s| == 0 then [] else Keep(s[0], c) + Bucket(s[1..], c)
  }

  predicate HasCategory(s: seq<ArticleItem>, c: string) {
    exists i :: 0 <= i < |s| && s[i].category == c
  }

  lemma {:induction false} BucketAppend(s: seq<ArticleItem>, a: ArticleItem, c: string)
    ensures Bucket(s + [a], c) == Bucket(s, c) + Keep(a, c)
  {
    if |s| == 0 {
      assert s + [a] == [a];
      assert Bucket([a], c) == Keep(a, c) + Bucket([], c);
    } else {
      var t := s + [a];
      assert t[0] == s[0] && t[1..] == s[1..] + [a];
      BucketAppend(s[1..], a, c);
      calc {
        Bucket(t, c);
        Keep(s[0], c) + Bucket(s[1..] + [a], c);
        Keep(s[0], c) + (Bucket(s[1..], c) + Keep(a, c));
        (Keep(s[0], c) + Bucket(s[1..], c)) + Keep(a, c);
      }
    }
  }

  /** Bucket `c` holds every article of category `c` as often as `s` does, and nothing else. */
  lemma {:induction false} BucketCounts(s: seq<ArticleItem>, c: string, a: ArticleItem)
    ensures multiset(Bucket(s, c))[a] == if a.category == c then multiset(s)[a] else 0
  {
    if |s| > 0 {
      var t := s[1..];
      BucketCounts(t, c, a);
      assert s == [s[0]] + t;
      assert multiset(Bucket(s, c)) == multiset(Keep(s[0], c)) + multiset(Bucket(t, c));
    }
  }

  lemma BucketMembers(s: seq<ArticleItem>, c: string, a: ArticleItem)
    ensures a in Bucket(s, c) <==> a in s && a.category == c
  {
    BucketCounts(s, c, a);
    assert a in Bucket(s, c) <==> a in multiset(Bucket(s, c));
    assert a in s <==> a in multiset(s);
  }

  lemma {:induction false} BucketEmptyIff(s: seq<ArticleItem>, c: string)
    ensures Bucket(s, c) != [] <==> HasCategory(s, c)
  {
    if |s| > 0 {
      BucketEmptyIff(s[1..], c);
      if HasCategory(s[1..], c) {
        var i :| 0 <= i < |s[1..]| && s[1..][i].category == c;
        assert s[i + 1].category == c;
      }
      if HasCategory(s, c) && s[0].category != c {
        var i :| 0 <= i < |s| && s[i].category == c;
        assert s[1..][i - 1].category == c;
      }
    }
  }

  /**
    The grouping loop builds exactly the reference buckets: a key exists only
    for a category some article has, and its bucket is that category's
    articles in listing order.
   */
  lemma {:induction false} GroupIsBuckets(s: seq<ArticleItem>, c: string)
    ensures c in Group(s) <==> HasCategory(s, c)
    ensures c in Group(s) ==> Group(s)[c] == Bucket(s, c)
  {
    if |s| > 0 && c in Group(s) {
      var front, a := s[..|s| - 1], s[|s| - 1];
      assert s == front + [a];
      var g := Group(front);
      BucketAppend(front, a, c);
      GroupIsBuckets(front, c);
      if c != a.category {
        assert Group(s)[c] == g[c];
      } else if c in g {
        assert Group(s)[c] == g[c] + [a];
      } else {
        BucketEmptyIff(front, c);
        assert Group(s)[c] == [a];
      }
    }
  }

  /**
    Every article lands in the bucket of its own category, as many times as
    it occurs in the listing, and in no other bucket.
   */
  lemma GroupPlacesEachArticleOnce(s: seq<ArticleItem>, a: ArticleItem, c: string)
    requires a in s
    ensures a.category in Group(s)
    ensures multiset(Group(s)[a.category])[a] == multiset(s)[a]
    ensures c in Group(s) && c != a.category ==> a !in Group(s)[c]
  {
    var i :| 0 <= i < |s| && s[i] == a;
    GroupIsBuckets(s, a.category);
    BucketCounts(s, a.category, a);
    GroupIsBuckets(s, c);
    BucketMembers(s, c, a);
  }

  /** A bucket of a date-sorted listing is itself date-sorted. */
  lemma {:induction false} BucketSorted(s: seq<ArticleItem>, c: string)
    requires SortedByDate(s)
    ensures SortedByDate(Bucket(s, c))
  {
    if |s| > 0 {
      var t := s[1..];
      assert SortedByDate(t) by {
        forall i, j | 0 <= i < j < |t|
          ensures NotAfter(t[i], t[j])
        {
          assert t[i] == s[i + 1] && t[j] == s[j + 1];
        }
      }
      BucketSorted(t, c);
      var rest := Bucket(t, c);
      if s[0].category == c {
        var b := [s[0]] + rest;
        forall i, j | 0 <= i < j < |b|
          ensures NotAfter(b[i], b[j])
        {
          if i == 0 {
            BucketMembers(t, c, b[j]);
            var k :| 0 <= k < |t| && t[k] == b[j];
            assert s[k + 1] == b[j];
          }
        }
      }
    }
  }

  /** Every bucket of a date-sorted listing is date-sorted. */
  lemma GroupBucketsSorted(s: seq<ArticleItem>, c: string)
    requires SortedByDate(s)
    requires c in Group(s)
    ensures SortedByDate(Group(s)[c])
  {
    GroupIsBuckets(s, c);
    BucketSorted(s, c);
  }

  /** The categories of `s`, each once, in the order they first appear. */
  function Categories(s: seq<ArticleItem>): (cs: seq<string>)
    ensures forall i, j :: 0 <= i < j < |cs| ==> cs[i] != cs[j]
    ensures forall c :: c in cs <==> HasCategory(s, c)
  {
    if |s| == 0 then []
    else
      var front, a := s[..|s| - 1], s[|s| - 1];
      var cs := Categories(front);
      HasCategorySnoc(s);
      if a.category in cs then cs else cs + [a.category]
  }

  /** The buckets named by `cs`, joined end to end. */
  function Concat(s: seq<ArticleItem>, cs: seq<string>): seq<ArticleItem> {
    if |cs| == 0 then [] else Bucket(s, cs[0]) + Concat(s, cs[1..])
  }

  /** The articles of `s` outside category `c`. */
  function Without(s: seq<ArticleItem>, c: string): seq<ArticleItem> {
    if |s| == 0 then []
    else Drop(s[0], c) + Without(s[1..], c)
  }

  lemma {:induction false} BucketWithout(s: seq<ArticleItem>, c: string, c': string)
    requires c != c'
    ensures Bucket(Without(s, c), c') == Bucket(s, c')
  {
    if |s| > 0 {
      BucketWithout(s[1..], c, c');
      var w := Without(s, c);
      if s[0].category != c {
        assert w == [s[0]] + Without(s[1..], c);
        assert w[0] == s[0] && w[1..] == Without(s[1..], c);
      } else {
        assert w == Without(s[1..], c);
      }
    }
  }

  lemma {:induction false} ConcatWithout(s: seq<ArticleItem>, c: string, cs: seq<string>)
    requires c !in cs
    ensures Concat(Without(s, c), cs) == Concat(s, cs)
  {
    if |cs| > 0 {
      BucketWithout(s, c, cs[0]);
      ConcatWithout(s, c, cs[1..]);
    }
  }

  lemma {:induction false} WithoutCounts(s: seq<ArticleItem>, c: string, a: ArticleItem)
    ensures multiset(Without(s, c))[a] == if a.category == c then 0 else multiset(s)[a]
  {
    if |s| > 0 {
      var t := s[1..];
      WithoutCounts(t, c, a);
      assert s == [s[0]] + t;
      assert multiset(Without(s, c)) == multiset(Drop(s[0], c)) + multiset(Without(t, c));
    }
  }

  /** Category `c`'s bucket and the rest together hold exactly the articles of `s`. */
  lemma SplitOffBucket(s: seq<ArticleItem>, c: string)
    ensures multiset(s) == multiset(Bucket(s, c)) + multiset(Without(s, c))
  {
    forall a
      ensures multiset(s)[a] == multiset(Bucket(s, c))[a] + multiset(Without(s, c))[a]
    {
      BucketCounts(s, c, a);
      WithoutCounts(s, c, a);
    }
  }

  lemma {:induction false} WithoutCategories(s: seq<ArticleItem>, c: string, c': string)
    requires HasCategory(Without(s, c), c')
    ensures HasCategory(s, c') && c' != c
  {
    var w := Without(s, c);
    if |s| > 0 {
      var i :| 0 <= i < |w| && w[i].category == c';
      if s[0].category != c && i == 0 {
        assert s[0].category == c';
      } else {
        var j := if s[0].category == c then i else i - 1;
        assert Without(s[1..], c)[j].category == c';
        WithoutCategories(s[1..], c, c');
        var k :| 0 <= k < |s[1..]| && s[1..][k].category == c';
        assert s[k + 1].category == c';
      }
    }
  }

  /**
    Joining the buckets of a list of distinct categories covering every
    article gives back the listing's articles: nothing lost, nothing repeated.
   */
  lemma {:induction false} ConcatIsPermutation(s: seq<ArticleItem>, cs: seq<string>)
    requires forall i, j :: 0 <= i < j < |cs| ==> cs[i] != cs[j]
    requires forall c :: HasCategory(s, c) ==> c in cs
    ensures multiset(Concat(s, cs)) == multiset(s)
    decreases |cs|
  {
    if |cs| == 0 {
      if |s| > 0 {
        assert HasCategory(s, s[0].category);
      }
    } else {
      var c, rest := cs[0], cs[1..];
      var w := Without(s, c);
      assert c !in rest;
      forall c' | HasCategory(w, c')
        ensures c' in rest
      {
        WithoutCategories(s, c, c');
      }
      ConcatIsPermutation(w, rest);
      ConcatWithout(s, c, rest);
      SplitOffBucket(s, c);
    }
  }

  /**
    The buckets partition the listing: taken in first-seen category order and
    joined, they hold exactly the listing's articles, so their sizes add up to
    the listing's length.
   */
  lemma GroupPartitions(s: seq<ArticleItem>)
    ensures multiset(Concat(s, Categories(s))) == multiset(s)
    ensures |Concat(s, Categories(s))| == |s|
    ensures forall c :: c in Categories(s) <==> c in Group(s)
  {
    ConcatIsPermutation(s, Categories(s));
    assert |multiset(Concat(s, Categories(s)))| == |multiset(s)|;
    forall c
      ensures c in Categories(s) <==> c in Group(s)
    {
      GroupIsBuckets(s, c);
    }
  }
}
