/**
  The values the catalog is built from and the ones it returns, and the
  date-based order articles are listed in.
 */
module Records {
  import opened Dates

  /** The front-matter fields an article file declares, already extracted. */
  datatype FrontMatter = FrontMatter(title: string, date: string, category: string)

  /** One file of the articles directory: its name, front-matter and markdown body. */
  datatype Entry = Entry(name: string, matter: FrontMatter, content: string)

  /** A catalog entry; `date` is the raw `DD-MM-YYYY` front-matter string. */
  datatype ArticleItem = ArticleItem(id: string, title: string, date: string, category: string)

  /** A fully loaded article; `date` is in the long display form. */
  datatype RenderedArticle = RenderedArticle(
    id: string, contentHtml: string, title: string, category: string, date: string)

  /** An article whose date string reads as a real day. */
  predicate WellDated(a: ArticleItem) {
    Parse(a.date).Some?
  }

  predicate AllWellDated(s: seq<ArticleItem>) {
    forall i :: 0 <= i < |s| ==> WellDated(s[i])
  }

  /** The day an article is dated. */
  function DateOf(a: ArticleItem): (d: Date)
    requires WellDated(a)
    ensures Valid(d)
  {
    Parse(a.date).value
  }

  /**
    The comparator of the listing: at most zero when `a` may come first,
    negative exactly when `a` is strictly older than `b`.
   */
  function CompareByDate(a: ArticleItem, b: ArticleItem): (r: int)
    requires WellDated(a) && WellDated(b)
    ensures r <= 0 <==> NotAfter(a, b)
    ensures r < 0 <==> !NotAfter(b, a)
  {
    Diff(DateOf(a), DateOf(b))
  }

  /** `a` may be listed before `b`: its date is no later, by year, then month, then day. */
  predicate NotAfter(a: ArticleItem, b: ArticleItem)
    requires WellDated(a) && WellDated(b)
  {
    ChronoLe(DateOf(a), DateOf(b))
  }

  lemma NotAfterTransitive(a: ArticleItem, b: ArticleItem, c: ArticleItem)
    requires WellDated(a) && WellDated(b) && WellDated(c)
    requires NotAfter(a, b) && NotAfter(b, c)
    ensures NotAfter(a, c)
  {
  }

  /** Oldest first: no article is followed by an older one. */
  predicate SortedByDate(s: seq<ArticleItem>) {
    && AllWellDated(s)
    && forall i, j :: 0 <= i < j < |s| ==> NotAfter(s[i], s[j])
  }
}
