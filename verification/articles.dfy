/**
  The content catalog of the blog: article identifiers, the date-sorted
  listing, the per-category listing and the loading of one article, over a
  directory given as the sequence of its entries.
 */
module Articles {
  import opened Wrappers
  import opened Dates
  import opened DisplayDate
  import opened Slugs
  import opened Records
  import opened DateSort
  import opened Grouping

  /** Why loading an article failed: no file at this path. */
  datatype LoadError = NotFound(path: string)

  /** A directory cannot hold two entries with the same name. */
  predicate DistinctNames(dir: seq<Entry>) {
    forall i, j :: 0 <= i < j < |dir| ==> dir[i].name != dir[j].name
  }

  /** Every front-matter date in the directory reads as a real day. */
  predicate AllDatesParse(dir: seq<Entry>) {
    forall i :: 0 <= i < |dir| ==> Parse(dir[i].matter.date).Some?
  }

  /** One identifier per directory entry, in listing order: the name less a trailing `.md`. */
  function GetArticleSlugs(dir: seq<Entry>): (ids: seq<string>)
    ensures |ids| == |dir|
    ensures forall i :: 0 <= i < |dir| && HasMdSuffix(dir[i].name) ==> ids[i] + MdExtension == dir[i].name
    ensures forall i :: 0 <= i < |dir| && !HasMdSuffix(dir[i].name) ==> ids[i] == dir[i].name
  {
    seq(|dir|, i requires 0 <= i < |dir| => StripMd(dir[i].name))
  }

  /** The catalog entry built from each file, before sorting; its id is the file's slug. */
  function ArticleRecords(dir: seq<Entry>): (items: seq<ArticleItem>)
    ensures |items| == |dir|
    ensures forall i :: 0 <= i < |dir| ==> items[i].id == GetArticleSlugs(dir)[i]
    ensures forall i :: 0 <= i < |dir| ==>
      && items[i].title == dir[i].matter.title
      && items[i].date == dir[i].matter.date
      && items[i].category == dir[i].matter.category
  {
    seq(|dir|, i requires 0 <= i < |dir| =>
      ArticleItem(StripMd(dir[i].name), dir[i].matter.title, dir[i].matter.date, dir[i].matter.category))
  }

  /** The listing: every file's entry, oldest first. */
  function GetSortedArticles(dir: seq<Entry>): (r: seq<ArticleItem>)
    requires AllDatesParse(dir)
    ensures |r| == |dir|
    ensures multiset(r) == multiset(ArticleRecords(dir))
    ensures SortedByDate(r)
  {
    var items := ArticleRecords(dir);
    assert AllWellDated(items);
    SortByDate(items)
  }

  lemma HasCategoryOfPermutation(a: seq<ArticleItem>, b: seq<ArticleItem>, c: string)
    requires multiset(a) == multiset(b)
    requires HasCategory(a, c)
    ensures HasCategory(b, c)
  {
    var i :| 0 <= i < |a| && a[i].category == c;
    assert a[i] in multiset(b);
    var j :| 0 <= j < |b| && b[j] == a[i];
  }

  /**
    The listing grouped by category into a plain object: a key for each
    category some file declares, its bucket that category's articles in
    listing order. A category named like an inherited member of every
    object makes the loop throw, at the first such article of the listing.
   */
  function GetCategorisedArticles(dir: seq<Entry>): (r: Result<Buckets, GroupError>)
    requires AllDatesParse(dir)
    ensures r.Err? <==> exists i :: 0 <= i < |dir| && dir[i].matter.category in InheritedKeys
    ensures r.Err? ==>
      var s := GetSortedArticles(dir);
      exists i :: 0 <= i < |s| && s[i].category == r.error.category
        && s[i].category in InheritedKeys && NoInheritedCategory(s[..i])
    ensures r.Ok? ==> forall c :: c in r.value <==> HasCategory(ArticleRecords(dir), c)
    ensures r.Ok? ==> forall c :: c in r.value ==> r.value[c] == Bucket(GetSortedArticles(dir), c)
    ensures r.Ok? ==> forall c :: c in r.value ==> |r.value[c]| > 0 && SortedByDate(r.value[c])
  {
    var s := GetSortedArticles(dir);
    PlainObjectGrouping(s);
    CategorisedSpec(dir, s);
    InheritedOfPermutation(dir, s);
    GroupInPlainObject(s)
  }

  /** The sorted listing has an inherited category name exactly when some file declares one. */
  lemma InheritedOfPermutation(dir: seq<Entry>, s: seq<ArticleItem>)
    requires multiset(s) == multiset(ArticleRecords(dir))
    ensures !NoInheritedCategory(s) <==> exists i :: 0 <= i < |dir| && dir[i].matter.category in InheritedKeys
  {
    var items := ArticleRecords(dir);
    if !NoInheritedCategory(items) {
      InheritedMoves(items, s);
    }
    if !NoInheritedCategory(s) {
      InheritedMoves(s, items);
    }
    assert NoInheritedCategory(items) <==> forall i :: 0 <= i < |dir| ==> dir[i].matter.category !in InheritedKeys;
  }

  lemma InheritedMoves(a: seq<ArticleItem>, b: seq<ArticleItem>)
    requires multiset(a) == multiset(b)
    requires !NoInheritedCategory(a)
    ensures !NoInheritedCategory(b)
  {
    var i :| 0 <= i < |a| && a[i].category in InheritedKeys;
    assert a[i] in multiset(b);
    var j :| 0 <= j < |b| && b[j] == a[i];
  }

  lemma CategorisedSpec(dir: seq<Entry>, s: seq<ArticleItem>)
    requires AllDatesParse(dir) && s == GetSortedArticles(dir)
    ensures forall c :: c in Group(s) <==> HasCategory(ArticleRecords(dir), c)
    ensures forall c :: c in Group(s) ==> Group(s)[c] == Bucket(s, c)
    ensures forall c :: c in Group(s) ==> |Group(s)[c]| > 0 && SortedByDate(Group(s)[c])
  {
    var items := ArticleRecords(dir);
    forall c
      ensures c in Group(s) <==> HasCategory(items, c)
      ensures c in Group(s) ==> Group(s)[c] == Bucket(s, c)
      ensures c in Group(s) ==> |Group(s)[c]| > 0 && SortedByDate(Group(s)[c])
    {
      GroupIsBuckets(s, c);
      if HasCategory(items, c) {
        HasCategoryOfPermutation(items, s, c);
      }
      if HasCategory(s, c) {
        HasCategoryOfPermutation(s, items, c);
      }
      if c in Group(s) {
        GroupBucketsSorted(s, c);
      }
    }
  }

  /** The first entry named `name`, if any. */
  function FindEntry(dir: seq<Entry>, name: string): (r: Option<Entry>)
    ensures r.Some? ==> r.value in dir && r.value.name == name
    ensures r.None? <==> forall e :: e in dir ==> e.name != name
  {
    if |dir| == 0 then None
    else if dir[0].name == name then Some(dir[0])
    else
      assert dir == [dir[0]] + dir[1..];
      FindEntry(dir[1..], name)
  }

  /**
    Loads the article `id` from the file `id.md`: front-matter fields,
    markdown rendered by `toHtml`, and the date in its long display form.
   */
  function GetArticleData(dir: seq<Entry>, id: string, toHtml: string -> string)
    : (r: Result<RenderedArticle, LoadError>)
    ensures r.Err? <==> forall e :: e in dir ==> e.name != id + MdExtension
    ensures r.Err? ==> r.error == NotFound(id + MdExtension)
    ensures r.Ok? ==> r.value.id == id && StripMd(id + MdExtension) == r.value.id
    ensures r.Ok? ==>
      var e := FindEntry(dir, id + MdExtension).value;
      && r.value.title == e.matter.title
      && r.value.category == e.matter.category
      && r.value.contentHtml == toHtml(e.content)
      && ParseDisplay(r.value.date) == Parse(e.matter.date)
      && (Parse(e.matter.date).None? ==> r.value.date == InvalidDate)
  {
    StripAppended(id);
    match FindEntry(dir, id + MdExtension)
    case None => Err(NotFound(id + MdExtension))
    case Some(e) =>
      var date := FormatDateString(e.matter.date);
      DisplayReadsBack(e.matter.date);
      Ok(RenderedArticle(id, toHtml(e.content), e.matter.title, e.matter.category, date))
  }

  /** The display date reads back as the day the front-matter names, or as nothing. */
  lemma DisplayReadsBack(s: string)
    ensures ParseDisplay(FormatDateString(s)) == Parse(s)
  {
    match Parse(s)
    case Some(d) =>
    case None => InvalidDateReadsAsNothing();
  }

  lemma InvalidDateReadsAsNothing()
    ensures ParseDisplay(InvalidDate) == None
  {
    assert InvalidDate == "Invalid" + " " + "date";
    assert NoSpace("Invalid") && NoSpace("date");
    WordsJoin("Invalid", "date");
    WordsOfWord("date");
    assert |Words(InvalidDate)| == 2;
  }

  lemma {:induction false} FindEntryOfDistinct(dir: seq<Entry>, i: nat)
    requires DistinctNames(dir) && i < |dir|
    ensures FindEntry(dir, dir[i].name) == Some(dir[i])
  {
    if i > 0 {
      assert dir[0].name != dir[i].name;
      var t := dir[1..];
      assert DistinctNames(t) by {
        forall a, b | 0 <= a < b < |t|
          ensures t[a].name != t[b].name
        {
          assert t[a] == dir[a + 1] && t[b] == dir[b + 1];
        }
      }
      FindEntryOfDistinct(t, i - 1);
    }
  }

  /**
    Every slug of a `.md` file loads that file: the article carries the
    slug as its id and that file's title, category, body and date.
   */
  lemma SlugLoadsItsArticle(dir: seq<Entry>, i: nat, toHtml: string -> string)
    requires DistinctNames(dir) && i < |dir|
    requires HasMdSuffix(dir[i].name)
    ensures GetArticleData(dir, GetArticleSlugs(dir)[i], toHtml) == Ok(RenderedArticle(
      ArticleRecords(dir)[i].id,
      toHtml(dir[i].content),
      dir[i].matter.title,
      dir[i].matter.category,
      FormatDateString(dir[i].matter.date)))
  {
    var id := GetArticleSlugs(dir)[i];
    assert id + MdExtension == dir[i].name;
    FindEntryOfDistinct(dir, i);
  }

  /** Distinct `.md` files have distinct slugs. */
  lemma SlugsDistinct(dir: seq<Entry>)
    requires DistinctNames(dir)
    requires forall i :: 0 <= i < |dir| ==> HasMdSuffix(dir[i].name)
    ensures forall i, j :: 0 <= i < j < |dir| ==> GetArticleSlugs(dir)[i] != GetArticleSlugs(dir)[j]
  {
  }
}
