/** `CatalogueItem` and its two variants.  In the source `Magazine` and `Book`
    are subclasses; here an item carries its variant as a `kind`, and the
    methods that the subclasses override dispatch on it.  Only the copy count
    changes after construction. */
module Catalogue {
  import opened Wrappers
  import opened JavaText
  import opened People
  import opened Books
  import opened Magazines

  /** The ISBN every item gets unless one is passed to the four-argument
      constructor. */
  const PlaceholderIsbn := "0000000000000"

  /** What the subclass adds.  A Book declares its own `isbn` and `year` fields
      that hide the inherited ones: its ISBN is null unless a constructor is
      given one, and its own `year` is never assigned by any constructor. */
  datatype ItemKind =
    | Plain
    | MagazineKind(number: Int32)
    | BookKind(author: Option<Person>, bookIsbn: Option<string>, genre: Option<Genre>)

  /** The copy count after `decrementCopies()`: one less when positive, left
      alone (after a console message) otherwise. */
  function Decremented(c: Int32): Int32
  {
    if c > 0 then c - 1 else c
  }

  /** `decrementCopies()` changes the count exactly when it is positive. */
  lemma DecrementedChangesPositiveOnly(c: Int32)
    ensures Decremented(c) == c <==> c <= 0
    ensures c > 0 ==> Decremented(c) == c - 1
  {
  }

  /** `decrementCopies()` never takes a count below zero. */
  lemma DecrementedKeepsNonNegative(c: Int32)
    requires c >= 0
    ensures 0 <= Decremented(c) <= c
  {
  }

  /** `addCopy()` followed by `decrementCopies()` restores the count, short of
      the 32-bit wrap at the top. */
  lemma DecrementUndoesAddCopy(c: Int32)
    requires 0 <= c < IntMax
    ensures Wrap32(c + 1) == c + 1 && Decremented(Wrap32(c + 1)) == c
  {
  }

  /** `addCopies(n)` followed by `addCopies(-n)` restores the count for every
      pair of `int`s: both additions wrap, and so does the negation `-n`. */
  lemma AddCopiesInverse(c: Int32, n: Int32)
    ensures Wrap32(Wrap32(c + n) + Wrap32(-(n as int))) == c
  {
  }

  class CatalogueItem {
    const title: string
    /** The `isbn` field of `CatalogueItem` (hidden in a Book). */
    const baseIsbn: string
    /** The `year` field of `CatalogueItem` (hidden in a Book). */
    const baseYear: Int32
    const kind: ItemKind
    var copies: Int32

    /** `CatalogueItem(title, year, copies, isbn)`. */
    constructor (title: string, year: Int32, copies: Int32, isbn: string)
      ensures this.title == title && baseYear == year && this.copies == copies && baseIsbn == isbn
      ensures kind == Plain
    {
      this.title := title;
      baseYear := year;
      this.copies := copies;
      baseIsbn := isbn;
      kind := Plain;
    }

    /** `CatalogueItem()`. */
    constructor Default()
      ensures title == "Item" && baseYear == 0 && copies == 0 && baseIsbn == PlaceholderIsbn && kind == Plain
    {
      title := "Item";
      baseYear := 0;
      copies := 0;
      baseIsbn := PlaceholderIsbn;
      kind := Plain;
    }

    /** `CatalogueItem(title)`. */
    constructor Titled(title: string)
      ensures this.title == title && baseYear == 0 && copies == 0 && baseIsbn == PlaceholderIsbn && kind == Plain
    {
      this.title := title;
      baseYear := 0;
      copies := 0;
      baseIsbn := PlaceholderIsbn;
      kind := Plain;
    }

    /** `CatalogueItem(title, year)`. */
    constructor OfYear(title: string, year: Int32)
      ensures this.title == title && baseYear == year && copies == 0 && baseIsbn == PlaceholderIsbn && kind == Plain
    {
      this.title := title;
      baseYear := year;
      copies := 0;
      baseIsbn := PlaceholderIsbn;
      kind := Plain;
    }

    /** `CatalogueItem(title, year, copies)`. */
    constructor WithCopies(title: string, year: Int32, copies: Int32)
      ensures this.title == title && baseYear == year && this.copies == copies && baseIsbn == PlaceholderIsbn
      ensures kind == Plain
    {
      this.title := title;
      baseYear := year;
      this.copies := copies;
      baseIsbn := PlaceholderIsbn;
      kind := Plain;
    }

    /** `Magazine(title, year, number)`: built on `CatalogueItem(title, year)`. */
    constructor Magazine(title: string, year: Int32, number: Int32)
      ensures this.title == title && baseYear == year && copies == 0 && baseIsbn == PlaceholderIsbn
      ensures kind == MagazineKind(number)
    {
      this.title := title;
      baseYear := year;
      copies := 0;
      baseIsbn := PlaceholderIsbn;
      kind := MagazineKind(number);
    }

    /** `Book(title)`: no author, ISBN or genre. */
    constructor Book(title: string)
      ensures this.title == title && baseYear == 0 && copies == 0 && baseIsbn == PlaceholderIsbn
      ensures kind == BookKind(None, None, None)
    {
      this.title := title;
      baseYear := 0;
      copies := 0;
      baseIsbn := PlaceholderIsbn;
      kind := BookKind(None, None, None);
    }

    /** `Book(title, author)`. */
    constructor BookBy(title: string, author: Option<Person>)
      ensures this.title == title && baseYear == 0 && copies == 0 && baseIsbn == PlaceholderIsbn
      ensures kind == BookKind(author, None, None)
    {
      this.title := title;
      baseYear := 0;
      copies := 0;
      baseIsbn := PlaceholderIsbn;
      kind := BookKind(author, None, None);
    }

    /** `Book(title, author, isbn)`. */
    constructor BookWithIsbn(title: string, author: Option<Person>, isbn: Option<string>)
      ensures this.title == title && baseYear == 0 && copies == 0 && baseIsbn == PlaceholderIsbn
      ensures kind == BookKind(author, isbn, None)
    {
      this.title := title;
      baseYear := 0;
      copies := 0;
      baseIsbn := PlaceholderIsbn;
      kind := BookKind(author, isbn, None);
    }

    /** `Book(title, author, isbn, year)`: the year goes to the hidden field. */
    constructor BookOfYear(title: string, author: Option<Person>, isbn: Option<string>, year: Int32)
      ensures this.title == title && baseYear == year && copies == 0 && baseIsbn == PlaceholderIsbn
      ensures kind == BookKind(author, isbn, None)
    {
      this.title := title;
      baseYear := year;
      copies := 0;
      baseIsbn := PlaceholderIsbn;
      kind := BookKind(author, isbn, None);
    }

    /** `Book(title, author, isbn, year, genre)`. */
    constructor BookOfGenre(title: string, author: Option<Person>, isbn: Option<string>, year: Int32, genre: Option<Genre>)
      ensures this.title == title && baseYear == year && copies == 0 && baseIsbn == PlaceholderIsbn
      ensures kind == BookKind(author, isbn, genre)
    {
      this.title := title;
      baseYear := year;
      copies := 0;
      baseIsbn := PlaceholderIsbn;
      kind := BookKind(author, isbn, genre);
    }

    /** `Book(title, author, isbn, year, genre, nCopies)`: the only Book
        constructor that sets the copy count, through `setCopies`. */
    constructor BookWithCopies(title: string, author: Option<Person>, isbn: Option<string>, year: Int32,
                               genre: Option<Genre>, nCopies: Int32)
      ensures this.title == title && baseYear == year && copies == nCopies && baseIsbn == PlaceholderIsbn
      ensures kind == BookKind(author, isbn, genre)
    {
      this.title := title;
      baseYear := year;
      copies := nCopies;
      baseIsbn := PlaceholderIsbn;
      kind := BookKind(author, isbn, genre);
    }

    /** `getIsbn()`: a Book answers with its own field, which may be null. */
    function Isbn(): (r: Option<string>)
      ensures kind.BookKind? ==> r == kind.bookIsbn
      ensures !kind.BookKind? ==> r == Some(baseIsbn)
    {
      if kind.BookKind? then kind.bookIsbn else Some(baseIsbn)
    }

    /** `getYear()`: a Book answers with its own field, which no constructor
        sets, so it is 0. */
    function Year(): (r: Int32)
      ensures kind.BookKind? ==> r == 0
      ensures !kind.BookKind? ==> r == baseYear
    {
      if kind.BookKind? then 0 else baseYear
    }

    /** `isAvailable()`. */
    predicate IsAvailable()
      reads this
      ensures IsAvailable() <==> copies >= 1
    {
      copies > 0
    }

    /** `setCopies(n)`: any value, negative ones included. */
    method SetCopies(n: Int32)
      modifies this
      ensures copies == n
    {
      copies := n;
    }

    /** `addCopies(n)`: `copies += n` on a Java int, with no sign check. */
    method AddCopies(n: Int32)
      modifies this
      ensures copies == Wrap32(old(copies) + n)
      ensures IntMin <= old(copies) + n <= IntMax ==> copies == old(copies) + n
    {
      copies := Wrap32(copies + n);
    }

    /** `addCopy()`: `copies++` on a Java int. */
    method AddCopy()
      modifies this
      ensures copies == Wrap32(old(copies) + 1)
      ensures old(copies) < IntMax ==> copies == old(copies) + 1
    {
      copies := Wrap32(copies + 1);
    }

    /** `decrementCopies()`. */
    method DecrementCopies()
      modifies this
      ensures copies == Decremented(old(copies))
      ensures old(copies) >= 0 ==> copies >= 0
    {
      if copies > 0 {
        copies := copies - 1;
      }
    }
  }

  /** An item is available exactly when it has a positive copy count. */
  lemma AvailableIffPositive(x: CatalogueItem)
    ensures x.IsAvailable() <==> x.copies > 0
    ensures x.copies >= 0 && x.copies < IntMax ==> Wrap32(x.copies + 1) > 0
  {
  }

  /** `x.equals(y)` for two items.  A Book receiver is equal to itself, casts
      any other argument to Book (a `ClassCastException` when it is not one)
      and applies the relaxed matching; every other item inherits the identity
      test of `Object.equals`. */
  function Equals(x: CatalogueItem, y: CatalogueItem): (r: Result<bool>)
    ensures x == y ==> r == Ok(true)
    ensures !x.kind.BookKind? ==> r == Ok(x == y)
    ensures x.kind.BookKind? && x != y && !y.kind.BookKind? ==> r == Err(ClassCast)
    ensures x.kind.BookKind? && y.kind.BookKind? && x != y
      ==> r == BookEquals(x.title, x.kind.author, y.title, y.kind.author)
    ensures r.Err? ==> r.error.ClassCast? || r.error.NullPointer? || r.error.IndexOutOfBounds?
  {
    if x.kind.BookKind? then
      if x == y then Ok(true)
      else if !y.kind.BookKind? then Err(ClassCast)
      else BookEquals(x.title, x.kind.author, y.title, y.kind.author)
    else Ok(x == y)
  }

  /** Between two Books, `equals` does not depend on which one is asked. */
  lemma EqualsSymmetricOnBooks(x: CatalogueItem, y: CatalogueItem)
    requires x.kind.BookKind? && y.kind.BookKind?
    ensures Equals(x, y) == Equals(y, x)
  {
    BookEqualsSymmetric(x.title, x.kind.author, y.title, y.kind.author);
  }

  /** Two distinct Book objects with the same title and the same author, whose
      first name has a token, are equal. */
  lemma EqualsMatchesCopies(x: CatalogueItem, y: CatalogueItem)
    requires x != y && x.kind.BookKind? && y.kind.BookKind?
    requires x.title == y.title && x.kind.author == y.kind.author && x.kind.author.Some?
    requires |Split(x.kind.author.value.firstName)| > 0
    ensures Equals(x, y) == Ok(true)
  {
    BookEqualsSameValues(x.title, x.kind.author.value);
  }

  /** The test `findItem` applies to an occupied slot: the title, else the ISBN;
      a null Book ISBN is dereferenced, a `NullPointerException`. */
  function MatchesKey(x: CatalogueItem, key: string): (r: Result<bool>)
    ensures r == Ok(true) <==> x.title == key || (x.Isbn().Some? && x.Isbn().value == key)
    ensures r.Err? <==> x.title != key && x.Isbn().None?
    ensures r.Err? ==> r.error == NullPointer
  {
    if x.title == key then Ok(true)
    else if x.Isbn().None? then Err(NullPointer)
    else Ok(x.Isbn().value == key)
  }

  /** Only a Book can make the lookup fail, and only one without an ISBN. */
  lemma MatchesKeyFailsOnlyOnBookWithoutIsbn(x: CatalogueItem, key: string)
    ensures MatchesKey(x, key).Err? ==> x.kind.BookKind? && x.kind.bookIsbn.None?
  {
  }

  /** `toString()` of an item.  A plain item has `Object.toString()`, which
      depends on the object's hash code and is given as `objectText`.  A Book
      dereferences its author. */
  function ItemText(x: CatalogueItem, objectText: string): (r: Result<string>)
    reads x
    ensures x.kind.Plain? ==> r == Ok(objectText)
    ensures x.kind.MagazineKind? ==> r == Ok(MagazineText(x.title, x.Year(), x.kind.number, x.copies))
    ensures x.kind.BookKind? ==> r == BookText(x.title, x.kind.author, x.kind.bookIsbn, x.kind.genre)
    ensures r.Err? <==> x.kind.BookKind? && x.kind.author.None?
  {
    match x.kind
    case Plain => Ok(objectText)
    case MagazineKind(number) => Ok(MagazineText(x.title, x.Year(), number, x.copies))
    case BookKind(author, isbn, genre) => BookText(x.title, author, isbn, genre)
  }

  /** `Book.fromBibtex(bibtex)`: the fields are read and checked, then the book
      is built with the four-argument constructor. */
  method FromBibtex(bibtex: string) returns (r: Result<CatalogueItem>)
    ensures r.Err? <==> ParseBibtex(bibtex).Err?
    ensures r.Err? ==> r.error == ParseBibtex(bibtex).error
    ensures r.Ok? ==> fresh(r.value)
    ensures r.Ok? ==> var b := ParseBibtex(bibtex).value;
      && r.value.title == b.title && r.value.baseYear == b.year && r.value.copies == 0
      && r.value.kind == BookKind(Some(b.author), Some(b.isbn), None)
  {
    var parsed := ParseBibtex(bibtex);
    if parsed.Err? {
      return Err(parsed.error);
    }
    var b := parsed.value;
    var book := new CatalogueItem.BookOfYear(b.title, Some(b.author), Some(b.isbn), b.year);
    return Ok(book);
  }
}
