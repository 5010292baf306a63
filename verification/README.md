# Blog content catalog, modelled in Dafny

This project models the content catalog of a static blog (`lib/articles.ts`).
At build time the catalog lists the markdown files of the `articles`
directory. It turns each file name into an article id (the *slug*) and reads
each file's front-matter (`title`, `date` as `DD-MM-YYYY`, `category`). It
sorts the articles by date, oldest first, and groups the sorted list into one
bucket per category. It also loads one article by id, with its date shown in
the long form `MMMM Do YYYY` ("January 1st 2024").

The directory is an input value, a sequence of `Entry(name, matter, content)`.
The front-matter is already extracted into `FrontMatter(title, date, category)`.
The markdown renderer is a function parameter `toHtml`. Everything else is
pure functions over sequences, strings and maps.

Modules (one file each):

- `Wrappers`: `Option` and `Result`.
- `Digits`: decimal digit strings, read (`Value`) and written zero-filled (`Fixed`) or shortest (`Show`).
- `Dates`: the `(day, month, year)` date, a strict `DD-MM-YYYY` parser and its inverse, and a proleptic Gregorian day count. The day count gives the millisecond difference the sort comparator returns.
- `DisplayDate`: the `MMMM Do YYYY` format with English month names and ordinal suffixes, plus a reader for that format that shows formatting loses nothing.
- `Slugs`: removing a trailing `.md`.
- `Records`: the article records and the oldest-first order.
- `DateSort`: the sort, as an insertion sort proved to be a sorted permutation.
- `Grouping`: the `forEach` grouping loop, proved equal to a per-category filter and shown to partition the list.
- `Articles`: the four operations of `lib/articles.ts` over a directory.
- `Scenarios`: worked examples (the `hello.md` article, and two "Misc" articles in date order).

Three behaviours of the code worth stating up front:

- Slugs are made for every directory entry, not only for markdown files; a name without a trailing `.md` is kept whole.
- The category buckets are a JavaScript object. Its key order is not first-seen order (integer-like keys come first), so the model returns a `map`.
- The buckets start as a plain `{}`, which already answers for the names it inherits from `Object.prototype` (`constructor`, `toString`, `__proto__`, ...). A category with such a name finds a truthy non-array, no bucket is opened, and the `push` throws. `Articles.GetCategorisedArticles` returns that failure as an error; the properties of the buckets are proved about `Grouping.Group`, the same loop on a map with no inherited keys, which is what it builds whenever no category has an inherited name (see "## Findings").

## Model

| member | source | states |
|---|---|---|
| Slugs.StripMd | lib/articles.ts:14 | a name ending in `.md` gives the id that, with `.md` appended, is the name again; any other name, including one with `.md` elsewhere, is returned unchanged |
| Slugs.StripAppended | lib/articles.ts:14 | appending `.md` to any id and stripping it gives the id back |
| Slugs.StripMdInjective | lib/articles.ts:14 | two `.md` names with the same id are the same name |
| Articles.GetArticleSlugs | lib/articles.ts:12-15 | exactly one id per directory entry, in directory order, each the entry's name less a trailing `.md` |
| Articles.SlugsDistinct | lib/articles.ts:12-15 | distinct `.md` file names give distinct ids |
| Articles.ArticleRecords | lib/articles.ts:20-32 | one record per file, in directory order; its id is the slug `getArticleSlugs` gives for the same file, and title, date and category are the file's front-matter |
| Dates.Parse | lib/articles.ts:35-37 | a date is accepted only if it names a real calendar day (month 1-12, day within the month, leap years by the Gregorian rule) |
| Dates.ParseRenderIff | lib/articles.ts:35-37 | parsing `s` gives `d` exactly when `d` is valid and `s` is `d` written as `DD-MM-YYYY` (parser and printer are inverse) |
| Dates.DayNumberOrder | lib/articles.ts:34-38 | the day count is ordered exactly as year, then month, then day, and two dates share a day number only if they are the same date |
| Dates.DayNumberStrictlyMonotone | lib/articles.ts:34-38 | a date earlier by year, then month, then day has a strictly smaller position on the day count the timestamps measure |
| Dates.Diff | lib/articles.ts:34-38 | the millisecond difference between two days is a whole number of days, at most zero exactly when the first date is no later by year, then month, then day, and zero only for the same date |
| Dates.DiffAntisymmetric | lib/articles.ts:34-38 | swapping the two dates negates the difference |
| Records.CompareByDate | lib/articles.ts:34-38 | the comparator on two articles is at most zero exactly when the first is not after the second, and negative exactly when the first is strictly older |
| DateSort.Insert | lib/articles.ts:34-39 | inserting an article into an oldest-first list keeps it oldest-first and adds exactly that article |
| DateSort.SortByDate | lib/articles.ts:34-39 | the result is oldest-first and is a permutation of the input (same multiset, same length) |
| DateSort.SortedIffAdjacent | lib/articles.ts:34-39 | a list is oldest-first exactly when its dates parse and the comparator is at most zero on every neighbouring pair |
| Articles.GetSortedArticles | lib/articles.ts:17-40 | the listing has one entry per file, is a permutation of the per-file records, and is oldest-first |
| Grouping.AddToBucket | lib/articles.ts:47-50 | one loop step appends the article to the end of its category's bucket, opening an empty one if needed, and leaves every other bucket as it was |
| Grouping.Group | lib/articles.ts:46-51 | grouping gives every article's category a key, and no bucket is empty |
| Grouping.GroupIsBuckets | lib/articles.ts:46-51 | the loop opens a key exactly for categories some article has, and each bucket is that category's articles in listing order |
| Grouping.GroupPlacesEachArticleOnce | lib/articles.ts:46-51 | every article is in the bucket of its own category, as many times as in the listing, and in no other bucket |
| Grouping.GroupBucketsSorted | lib/articles.ts:43-51 | every bucket of an oldest-first listing is oldest-first |
| Grouping.ConcatIsPermutation | lib/articles.ts:46-51 | the buckets of a list of distinct categories covering all articles, joined, hold exactly the listing's articles |
| Grouping.GroupPartitions | lib/articles.ts:46-51 | the buckets in first-seen category order, joined, are a permutation of the listing, so the bucket sizes sum to its length; those categories are exactly the keys |
| Grouping.GroupInPlainObject | lib/articles.ts:44-51 | on a plain object the loop can only fail with a category name inherited from `Object.prototype` |
| Grouping.PlainObjectGrouping | lib/articles.ts:44-51 | on a plain object the loop fails exactly when some category is an inherited name, reporting the first such article's category, and otherwise builds the same buckets as `Group` |
| Articles.GetCategorisedArticles | lib/articles.ts:42-54 | fails exactly when some file declares an inherited name as its category, naming the first such article of the sorted listing; otherwise a key for each category some file declares and no other, each bucket non-empty, oldest-first, and that category's sub-list of the sorted listing |
| Articles.FindEntry | lib/articles.ts:57-58 | the file looked up has the requested name; no file is found exactly when no entry has that name |
| Articles.GetArticleData | lib/articles.ts:56-75 | an unknown id fails with not-found for `id.md`; otherwise the result carries the requested id unchanged, the file's title, category and rendered body, and a display date that reads back to the front-matter date, or is "Invalid date" when that date does not parse |
| Articles.DisplayReadsBack | lib/articles.ts:73 | reading the display date gives back exactly what parsing the front-matter date gives |
| Articles.SlugLoadsItsArticle | lib/articles.ts:56-74 | in a directory of distinct names, the slug of any `.md` file loads that file, with the record's id, its title, category and body, and its formatted date |
| DisplayDate.OrdinalSuffix | lib/articles.ts:73 | the suffix is one of "st", "nd", "rd", "th" |
| DisplayDate.OrdinalSuffixOfDays | lib/articles.ts:73 | for days 1-31: "st" for 1, 21, 31; "nd" for 2, 22; "rd" for 3, 23; "th" otherwise |
| DisplayDate.OrdinalSuffixRule | lib/articles.ts:73 | "th" when the number ends in 11, 12 or 13; otherwise "st", "nd", "rd" for a last digit 1, 2, 3, and "th" for the rest |
| DisplayDate.FormatDateString | lib/articles.ts:73 | the display date is "Invalid date" exactly when the front-matter date does not parse |
| DisplayDate.Ordinal | lib/articles.ts:73 | the `Do` token is the day in decimal without leading zeros followed by its two-letter ordinal suffix |
| DisplayDate.Format | lib/articles.ts:73 | formatting loses nothing: reading a formatted date gives the date back |
| DisplayDate.WordsOfFormat | lib/articles.ts:73 | a display date is three space-separated words: the English month name, the day with its suffix, the zero-filled four-digit year |
| DisplayDate.ParseDisplayIff | lib/articles.ts:73 | a string reads as a date exactly when it is that valid date's display form, so the display string is determined by the date it reads back to |
| DisplayDate.FormatInjective | lib/articles.ts:73 | two valid dates with the same display string are the same date |
| Scenarios.FormatExamples | lib/articles.ts:73 | 1 January 2024 is shown as "January 1st 2024" and 3 June 2024 as "June 3rd 2024" |
| Scenarios.HelloExample | lib/articles.ts:56-74 | `hello.md` dated `01-01-2024` in "Misc" loads as id "hello" with date "January 1st 2024" |
| Scenarios.MiscOrderExample | lib/articles.ts:42-54 | with files dated `01-01-2024` and `15-03-2023` in "Misc", grouping succeeds and the "Misc" bucket lists the 2023 article first |
| Scenarios.ConstructorCategoryExample | lib/articles.ts:44-51 | an article filed under "constructor" makes the plain-object loop fail, while grouping on a map with no inherited keys gives it its own bucket |

## Left out

- Filesystem access (`readdirSync`, `readFileSync`, `path.join`, `process.cwd`): the directory is an input sequence of entries. I/O errors other than a missing file are not modelled.
- The `gray-matter` front-matter parser: front-matter arrives as three strings. Missing keys, and so an `undefined` category used as a key, are not modelled.
- The `remark`/`remark-html` pipeline and the asynchronous completion of `getArticleData`: the renderer is an opaque function parameter.
- moment's lenient parsing: the model parses `DD-MM-YYYY` strictly (two digits, dash, two digits, dash, four digits, a real day). Inputs moment would still accept (single digits, other separators, trailing text) count as unparsable. They are shown as "Invalid date" and are excluded by the sort's precondition.
- Articles.GetSortedArticles: requires every front-matter date to parse. With an invalid date moment's `diff` is NaN and the comparator has no defined order.
- DateSort.SortByDate: does not state the order of articles with equal dates. JavaScript's sort is stable, but the catalog promises no tie-break.
- Dates.Diff: counts whole days times 86,400,000 ms between UTC midnights. Local time-zone and daylight-saving offsets are not modelled. They change the size of the difference but not its sign, unless the host's time zone skipped a whole calendar day (Pacific/Apia skipped 30-12-2011), in which case two different dates can compare equal.
- Years outside 0000-9999: the four-digit year field cannot express them, so moment's signed year rendering is not modelled.
- Key order of the object returned by `getCategorisedArticles`: the model returns a map.
- The page glue and UI components (`app/[slug]/page.tsx`, `app/components/*`, `app/layout.tsx`): DOM work, clipboard, timers and static metadata.

## Findings

| source | as written | input that shows it | evidently intended | confidence | as-written member | corrected member |
|---|---|---|---|---|---|---|
| lib/articles.ts:44-51 | the buckets live in a plain `{}`, and `!categorisedArticles[article.category]` sees the names inherited from `Object.prototype` as present, so `push` is called on a function or on the prototype and throws | one article whose category is "constructor" | that article in a bucket of its own under "constructor" | not executed; high for the failure, medium that any author would file an article under such a name | Grouping.GroupInPlainObject, shown by Scenarios.ConstructorCategoryExample | Grouping.Group, with Grouping.GroupIsBuckets |
