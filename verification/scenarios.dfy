/**
  Worked examples of the catalog: concrete files, their dates and the
  listing they produce.
 */
module Scenarios {
  import opened Wrappers
  import opened Digits
  import opened Dates
  import opened DisplayDate
  import opened Slugs
  import opened Records
  import opened Grouping
  import opened Articles

  /** The value of a four-digit field. */
  lemma FourDigitValue(s: string)
    requires |s| == 4 && AllDigits(s)
    ensures Value(s) == DigitValue(s[0]) * 1000 + DigitValue(s[1]) * 100 + DigitValue(s[2]) * 10 + DigitValue(s[3])
  {
    var s1, s2, s3 := s[..1], s[..2], s[..3];
    assert s1 == [] + [s[0]] && s2 == s1 + [s[1]] && s3 == s2 + [s[2]] && s == s3 + [s[3]];
    ValueAppend([], s[0]);
    ValueAppend(s1, s[1]);
    ValueAppend(s2, s[2]);
    ValueAppend(s3, s[3]);
  }

  lemma Year2024()
    ensures Value("2024") == 2024
  {
    FourDigitValue("2024");
  }

  lemma Year2023()
    ensures Value("2023") == 2023
  {
    FourDigitValue("2023");
  }

  /** The value of a two-digit field. */
  lemma TwoDigitValue(s: string)
    requires |s| == 2 && AllDigits(s)
    ensures Value(s) == DigitValue(s[0]) * 10 + DigitValue(s[1])
  {
    assert s == [s[0]] + [s[1]] && [s[0]] == [] + [s[0]];
    ValueAppend([], s[0]);
    ValueAppend([s[0]], s[1]);
  }

  lemma ParseNewYear2024()
    ensures Parse("01-01-2024") == Some(Date(1, 1, 2024))
  {
    var s := "01-01-2024";
    assert s[0..2] == "01" && s[3..5] == "01" && s[6..10] == "2024";
    assert WellShaped(s);
    TwoDigitValue("01");
    Year2024();
    assert Valid(Date(1, 1, 2024));
  }

  lemma ParseIdesOfMarch2023()
    ensures Parse("15-03-2023") == Some(Date(15, 3, 2023))
  {
    var s := "15-03-2023";
    assert s[0..2] == "15" && s[3..5] == "03" && s[6..10] == "2023";
    assert WellShaped(s);
    TwoDigitValue("15");
    TwoDigitValue("03");
    Year2023();
    assert Valid(Date(15, 3, 2023));
  }

  lemma OrdinalExamples()
    ensures Ordinal(1) == "1st" && Ordinal(3) == "3rd"
  {
    assert Show(1) == "1";
    assert Show(3) == "3";
  }

  lemma YearField2024()
    ensures Fixed(2024, 4) == "2024"
  {
    Year2024();
    FixedOfValue("2024");
  }

  /** The display forms of 1 January 2024 and 3 June 2024. */
  lemma FormatExamples()
    ensures Format(Date(1, 1, 2024)) == "January 1st 2024"
    ensures Format(Date(3, 6, 2024)) == "June 3rd 2024"
  {
    OrdinalExamples();
    YearField2024();
  }

  /** `hello.md` dated 01-01-2024 loads as "hello", displayed as "January 1st 2024". */
  lemma HelloExample(toHtml: string -> string)
    ensures
      var hello := Entry("hello.md", FrontMatter("Hello", "01-01-2024", "Misc"), "# Hi");
      GetArticleData([hello], "hello", toHtml)
        == Ok(RenderedArticle("hello", toHtml("# Hi"), "Hello", "Misc", "January 1st 2024"))
  {
    var hello := Entry("hello.md", FrontMatter("Hello", "01-01-2024", "Misc"), "# Hi");
    assert "hello" + MdExtension == "hello.md";
    assert FindEntry([hello], "hello.md") == Some(hello);
    NewYear2024Displayed();
  }

  lemma NewYear2024Displayed()
    ensures FormatDateString("01-01-2024") == "January 1st 2024"
  {
    ParseNewYear2024();
    FormatExamples();
  }

  const NewerFile := Entry("a.md", FrontMatter("A", "01-01-2024", "Misc"), "")
  const OlderFile := Entry("b.md", FrontMatter("B", "15-03-2023", "Misc"), "")
  const NewerItem := ArticleItem("a", "A", "01-01-2024", "Misc")
  const OlderItem := ArticleItem("b", "B", "15-03-2023", "Misc")

  lemma MiscRecords()
    ensures AllDatesParse([NewerFile, OlderFile])
    ensures ArticleRecords([NewerFile, OlderFile]) == [NewerItem, OlderItem]
  {
    ParseNewYear2024();
    ParseIdesOfMarch2023();
    StripAppended("a");
    StripAppended("b");
    assert "a" + MdExtension == "a.md" && "b" + MdExtension == "b.md";
    var items := ArticleRecords([NewerFile, OlderFile]);
    assert items[0] == NewerItem && items[1] == OlderItem;
  }

  lemma MiscSorted()
    ensures AllDatesParse([NewerFile, OlderFile])
    ensures GetSortedArticles([NewerFile, OlderFile]) == [OlderItem, NewerItem]
  {
    MiscRecords();
    var s := GetSortedArticles([NewerFile, OlderFile]);
    assert multiset([NewerItem, OlderItem]) == multiset{NewerItem, OlderItem};
    MiscPairSorted(s);
  }

  /** The only oldest-first arrangement of the two "Misc" articles. */
  lemma MiscPairSorted(s: seq<ArticleItem>)
    requires |s| == 2 && multiset(s) == multiset{NewerItem, OlderItem}
    requires SortedByDate(s)
    ensures s == [OlderItem, NewerItem]
  {
    ParseNewYear2024();
    ParseIdesOfMarch2023();
    assert !NotAfter(NewerItem, OlderItem);
    assert s[0] in multiset(s) && s[1] in multiset(s);
    assert NotAfter(s[0], s[1]);
    assert s[0] != NewerItem;
  }

  lemma MiscBucket()
    ensures Bucket([OlderItem, NewerItem], "Misc") == [OlderItem, NewerItem]
  {
    var s := [OlderItem, NewerItem];
    assert s[1..] == [NewerItem] && s[1..][1..] == [];
    assert Bucket([NewerItem], "Misc") == [NewerItem];
  }

  lemma MiscIsACategory()
    ensures HasCategory(ArticleRecords([NewerFile, OlderFile]), "Misc")
  {
    MiscRecords();
    assert ArticleRecords([NewerFile, OlderFile])[0].category == "Misc";
  }

  lemma MiscIsNotInherited()
    ensures forall i :: 0 <= i < |[NewerFile, OlderFile]| ==>
      [NewerFile, OlderFile][i].matter.category !in InheritedKeys
  {
    assert "Misc" !in InheritedKeys;
  }

  /** Two articles filed under "Misc": the one dated 15-03-2023 is listed before the one dated 01-01-2024. */
  lemma MiscOrderExample()
    ensures AllDatesParse([NewerFile, OlderFile])
    ensures GetCategorisedArticles([NewerFile, OlderFile]).Ok?
    ensures GetCategorisedArticles([NewerFile, OlderFile]).value["Misc"] == [OlderItem, NewerItem]
  {
    MiscSorted();
    MiscIsACategory();
    MiscBucket();
    MiscIsNotInherited();
  }

  const ConstructorItem := ArticleItem("c", "C", "01-01-2024", "constructor")

  /**
    An article filed under "constructor": on a plain object the loop throws
    at it, while grouping on a map with no inherited keys opens its bucket.
   */
  lemma ConstructorCategoryExample()
    ensures GroupInPlainObject([ConstructorItem]) == Err(TypeError("constructor"))
    ensures Group([ConstructorItem]) == map["constructor" := [ConstructorItem]]
  {
    var s := [ConstructorItem];
    assert s[..0] == [];
    assert "constructor" in InheritedKeys;
  }
}
