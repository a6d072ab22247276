/** The scenarios of the repository's test suite, each proved to end as the
    suite expects.  The clock is a parameter, and so is the date formatting. */
module Scenarios {
  import opened Wrappers
  import opened JavaText
  import opened People
  import opened Books
  import opened Catalogue
  import opened Loans
  import opened StableSort
  import opened LibrarySpec
  import opened Libraries

  /** `createBook()`: "Book 1" by John Doe, two copies. */
  method CreateBook() returns (b: CatalogueItem)
    ensures fresh(b) && b.title == "Book 1" && b.copies == 2
    ensures b.kind == BookKind(Some(Person("John", "Doe")), Some("9780136083238"), Some(Nonfiction))
  {
    b := new CatalogueItem.BookWithCopies("Book 1", Some(Person("John", "Doe")), Some("9780136083238"), 2010,
      Some(Nonfiction), 2);
  }

  /** `createBookAlt()`: another "Book 1" by John Doe, one copy. */
  method CreateBookAlt() returns (b: CatalogueItem)
    ensures fresh(b) && b.title == "Book 1" && b.copies == 1
    ensures b.kind == BookKind(Some(Person("John", "Doe")), Some("9781111111111"), Some(Unspecified))
  {
    b := new CatalogueItem.BookWithCopies("Book 1", Some(Person("John", "Doe")), Some("9781111111111"), 2020,
      Some(Unspecified), 1);
  }

  /** `testWelcome`. */
  method WelcomeScenario() returns (w: string)
    ensures w == "Welcome to Sheffield Central Library"
  {
    var library := new Library.Named("Sheffield Central Library");
    w := library.Welcome();
  }

  /** `testCatalogueSize`: one book added, one item listed. */
  method CatalogueSizeScenario() returns (n: nat)
    ensures n == 1
  {
    var library := new Library.Named("Sheffield Library");
    var book := CreateBook();
    ghost var s := library.catalogue[..];
    assert s[0] == null;
    var added := library.AddItem(book);
    NonNullOfEmpty(s);
    NonNullGrows(s, 0, book);
    var items := library.GetCatalogue();
    n := |items|;
  }

  /** The library of `testPrintCatalogue`: both fixture books added. */
  method TwoBookLibrary() returns (library: Library)
    ensures fresh(library) && fresh(library.catalogue) && library.Valid()
    ensures library.name == "Sheffield Central Library"
    ensures library.catalogue[0] != null && library.catalogue[0].title == "Book 1"
    ensures library.catalogue[0].kind == BookKind(Some(Person("John", "Doe")), Some("9780136083238"), Some(Nonfiction))
    ensures library.catalogue[1] != null && library.catalogue[1].title == "Book 1"
    ensures library.catalogue[1].kind == BookKind(Some(Person("John", "Doe")), Some("9781111111111"), Some(Unspecified))
    ensures forall j :: 2 <= j < library.catalogue.Length ==> library.catalogue[j] == null
  {
    library := new Library.Named("Sheffield Central Library");
    var b1 := CreateBook();
    var b2 := CreateBookAlt();
    ghost var s0 := library.catalogue[..];
    assert s0[0] == null;
    assert FirstFree(s0) == 0;
    var a1 := library.AddItem(b1);
    ghost var s1 := library.catalogue[..];
    assert s1 == s0[0 := b1];
    assert FirstFree(s1) == 1;
    var a2 := library.AddItem(b2);
    assert library.catalogue[..] == s0[0 := b1][1 := b2];
  }

  /** `testPrintCatalogue`: two books of the same title, printed in the order
      they were added. */
  method PrintCatalogueScenario() returns (lines: seq<string>)
    ensures lines == [Border, "Welcome to Sheffield Central Library", "Catalogue", Border,
      "Book: Title=Book 1; Author=Doe, John; ISBN=9780136083238; Genre=NONFICTION",
      "Book: Title=Book 1; Author=Doe, John; ISBN=9781111111111; Genre=UNSPECIFIED",
      Border]
  {
    var library := TwoBookLibrary();
    ghost var s := library.catalogue[..];
    TwoBooksSorted(s);
    var objectText := (x: CatalogueItem) => "";
    assert library.Welcome() == "Welcome to " + "Sheffield Central Library" == "Welcome to Sheffield Central Library";
    var report := library.PrintCatalogue(objectText);
    assert library.catalogue[..] == s;
    TwoBooksReport(s, objectText);
    lines := report.lines;
  }

  /** Two items of one title in the first two slots, the rest empty, are in
      sorted order already. */
  lemma TwoBooksSorted(s: seq<CatalogueItem?>)
    requires |s| >= 2 && s[0] != null && s[1] != null && s[0].title == s[1].title
    requires forall j :: 2 <= j < |s| ==> s[j] == null
    ensures Sort(s, SlotKey, NullsLast) == s
  {
    LexLeReflexive(s[0].title);
    assert Sorted(s, SlotKey, NullsLast);
    SortOfSorted(s, SlotKey, NullsLast);
  }

  /** The report on the two fixture books. */
  lemma TwoBooksReport(s: seq<CatalogueItem?>, objectText: CatalogueItem -> string)
    requires |s| >= 2 && s[0] != null && s[1] != null && s[0].title == "Book 1" && s[1].title == "Book 1"
    requires s[0].kind == BookKind(Some(Person("John", "Doe")), Some("9780136083238"), Some(Nonfiction))
    requires s[1].kind == BookKind(Some(Person("John", "Doe")), Some("9781111111111"), Some(Unspecified))
    requires forall j :: 2 <= j < |s| ==> s[j] == null
    ensures CatalogueReport("Welcome to Sheffield Central Library", s, objectText).lines
      == [Border, "Welcome to Sheffield Central Library", "Catalogue", Border,
        "Book: Title=Book 1; Author=Doe, John; ISBN=9780136083238; Genre=NONFICTION",
        "Book: Title=Book 1; Author=Doe, John; ISBN=9781111111111; Genre=UNSPECIFIED",
        Border]
  {
    BookTextOfFixture();
    BookTextOfAltFixture();
    ItemLinesOfEmpty(s, objectText, 2);
    ItemLinesStep(s, objectText, 1);
    ItemLinesStep(s, objectText, 0);
  }

  /** `new Person("Jose Rojas")`, the borrower of the loan scenarios. */
  method JoseRojas() returns (p: Person)
    ensures p == Person("Jose", "Rojas")
  {
    JoseRojasParses();
    var parsed := FromFullName("Jose Rojas");
    p := parsed.value;
  }

  /** "Jose Rojas" splits into exactly a first and a last name. */
  lemma JoseRojasParses()
    ensures FromFullName("Jose Rojas") == Ok(Person("Jose", "Rojas"))
  {
    assert ' ' !in "Jose" && ' ' !in "Rojas";
    SplitTwoWords("Jose", "Rojas");
    assert "Jose" + " " + "Rojas" == "Jose Rojas";
  }

  /** `printOverdue`: a loan just made is not overdue, so the report is the
      header and a single border. */
  method PrintOverdueScenario(now: int, day: int -> string) returns (lines: seq<string>)
    ensures lines == [Border, "Loans Overdue", Border, Border]
  {
    var library := new Library("Sheffield Central Library", 10);
    var book := CreateBook();
    var added := library.AddItem(book);
    var user := JoseRojas();
    var loan := library.LoanItem(book.title, user, now);
    lines := library.PrintOverdue(now, day);
  }

  /** `loan_NonExistentItem`: loaning a title the catalogue lacks fails with
      `ItemNotFoundException`. */
  method LoanNonExistentItemScenario(now: int) returns (r: Result<Loan>)
    ensures r == Err(ItemNotFound)
  {
    var library := new Library("Sheffield Central Library", 10);
    var book := CreateBook();
    ghost var s0 := library.catalogue[..];
    assert s0[0] == null;
    var added := library.AddItem(book);
    ghost var s := library.catalogue[..];
    var key := "Random book which does not exist";
    assert MatchesKey(book, key) == Ok(false);
    assert forall j :: 0 <= j < |s| ==> s[j] == null || MatchesKey(s[j], key) == Ok(false);
    FindNothingIff(s, key, 0);
    var user := JoseRojas();
    r := library.LoanItem(key, user, now);
  }
}
