# Library management: a Dafny model

This project models the in-memory engine of a small Java library application.
- **Catalogue items** are plain items, magazines and books. Each keeps a copy counter that is shared by reference between a catalogue slot and any loan of it.
- **Borrowers** are `Person` values.
- **A loan** moves from open to returned. Its due date can be extended while it is open.
- **`Library`** holds a 100-slot catalogue array and a 100-slot loan array. It adds items to the first free slot and finds them by title or ISBN. It removes copies, emptying the slot when the last copy goes, and creates loans. It sorts the catalogue in place by title with empty slots last, and reports the loans that are overdue.

Modules, one per file:

| file | module | what it holds |
|---|---|---|
| `wrappers.dfy` | `Wrappers` | `Option`, `Result`, `Outcome` and the `Error` values that stand for the Java exceptions and runtime crashes |
| `java_text.dfy` | `JavaText` | Java `int` wrap-around, `String.split(" ")`, `trim`, `indexOf`, `compareTo` order, `Integer.parseInt` on digit strings |
| `stable_sort.dfy` | `StableSort` | a generic stable insertion sort by key: the reference order for both sorts of the library |
| `person.dfy` | `People` | `Person` and its full-name parser |
| `magazine.dfy` | `Magazines` | `Magazine.toString` |
| `book.dfy` | `Books` | `Book.equals`, `Book.toString`, `extractField` and the validation of `fromBibtex` |
| `catalogue_item.dfy` | `Catalogue` | the class `CatalogueItem`, covering all three Java classes, and its constructors and copy operations |
| `loan.dfy` | `Loans` | the state machine of a loan's dates, and the class `Loan` |
| `library_spec.dfy` | `LibrarySpec` | functions on slot sequences that specify every `Library` operation, and lemmas about them |
| `library.dfy` | `Libraries` | the class `Library`, its array-based methods proved against `LibrarySpec` |
| `scenarios.dfy` | `Scenarios` | the JUnit tests of `TestLibrary`, each proved to give the output the test expects |

How the Java program is represented:
- Times are integer timestamps in seconds, and one day is 86400 seconds.
- Wherever the source reads `LocalDateTime.now()`, the model takes a `now` parameter.
- Date formatting (`dd-MM-yyyy`, `dd-MM-yyyy HH:mm:ss`) is a function parameter from timestamps to strings.
- `Object.toString()` of a plain `CatalogueItem` is also a function parameter, because it prints an identity hash.
- Exceptions are `Err`/`Fail` values.
  - The crashes the code can hit are modelled too: the cast in `Book.equals`, a null ISBN or author, and index out of range.
- `printCatalogue` and `printOverdue` return the lines they would print.
- Java `int` fields are `Int32`. `addCopy`/`addCopies` wrap around as Java does (`Wrap32`).
- A Book's ISBN, author and genre are `Option`s, with `None` standing for Java's `null`.
- Book hides the inherited `year` and `isbn` with fields of its own. The model keeps both:
  - a Book's visible ISBN is its own (null unless a constructor is given one);
  - a Book's visible year is always 0, because no constructor assigns the hiding field.

## Model

Paths are under `src/main/java/uk/ac/sheffield/com1003/library/` or `src/test/java/uk/ac/sheffield/com1003/library/`.

| member | source | states |
|---|---|---|
| JavaText.Wrap32 | src/main/java/uk/ac/sheffield/com1003/library/catalogue/CatalogueItem.java:65-75 | Java `int` addition: in range the sum is kept, one past the maximum wraps to the minimum |
| JavaText.Split | src/main/java/uk/ac/sheffield/com1003/library/Person.java:11 | `split(" ")`: a string without spaces is one token; with spaces the last token, if any, is not empty (partners: `PiecesJoin`, `DropTrailingEmpty`, `SplitTokensHaveNoSpace`) |
| JavaText.DropTrailingEmpty | src/main/java/uk/ac/sheffield/com1003/library/Person.java:11 | `split` drops trailing empty strings: the result is a prefix of the pieces and does not end with "" |
| JavaText.PiecesJoin | src/main/java/uk/ac/sheffield/com1003/library/Person.java:11 | splitting at every space loses nothing: joining the pieces with spaces gives the input back |
| JavaText.SplitTwoWords | src/main/java/uk/ac/sheffield/com1003/library/Person.java:11-16 | "first last", with no spaces in either word, splits into exactly `[first, last]` |
| JavaText.SplitTokensHaveNoSpace | src/main/java/uk/ac/sheffield/com1003/library/Person.java:11 | no token of `split(" ")` contains a space |
| JavaText.Trim | src/main/java/uk/ac/sheffield/com1003/library/catalogue/Book.java:155 | `trim()`: the result neither starts nor ends with a character at or below U+0020 and is no longer than the input (partners: `TrimIsSlice`, `TrimCutsLeadingBlanks`, `TrimCutsTrailingBlanks`) |
| JavaText.TrimIsSlice | src/main/java/uk/ac/sheffield/com1003/library/catalogue/Book.java:155 | the trimmed string is a contiguous slice of the input, starting after the leading blanks |
| JavaText.TrimCutsLeadingBlanks | src/main/java/uk/ac/sheffield/com1003/library/catalogue/Book.java:155 | every character cut before the slice is at or below U+0020 |
| JavaText.TrimCutsTrailingBlanks | src/main/java/uk/ac/sheffield/com1003/library/catalogue/Book.java:155 | every character cut after the slice is at or below U+0020 |
| JavaText.TrimKeepsFirst | src/main/java/uk/ac/sheffield/com1003/library/catalogue/Book.java:155 | trimming a string that starts with a non-blank character keeps that character first |
| JavaText.IndexOf | src/main/java/uk/ac/sheffield/com1003/library/catalogue/Book.java:129-142 | `indexOf(pat, from)`: -1 or an occurrence at or after `from`, with no occurrence between `from` and it |
| JavaText.LexLe | src/main/java/uk/ac/sheffield/com1003/library/Library.java:241 | the title order of `compareTo`: a prefix comes first (partners: `LexLeTotal`, `LexLeTransitive`, `LexLeAntisymmetric`) |
| JavaText.LexLeTotal | src/main/java/uk/ac/sheffield/com1003/library/Library.java:241 | the title order of `compareTo` is total |
| JavaText.LexLeTransitive | src/main/java/uk/ac/sheffield/com1003/library/Library.java:241 | the title order is transitive |
| JavaText.LexLeAntisymmetric | src/main/java/uk/ac/sheffield/com1003/library/Library.java:241 | titles ordered both ways are equal |
| JavaText.ParseInt | src/main/java/uk/ac/sheffield/com1003/library/catalogue/Book.java:110-115 | `Integer.parseInt`: a parsed value is a Java `int`; only an optional sign followed by at least one digit, with nothing else, parses; a negative value has a leading minus (partners: `ParseIntSignedDigits`, `ParseIntRoundTrip`) |
| JavaText.ParseIntSignedDigits | src/main/java/uk/ac/sheffield/com1003/library/catalogue/Book.java:112 | a sign ("", "+" or "-") and a non-empty digit string parse to their signed decimal value exactly when it is in `int` range, and otherwise fail |
| JavaText.ParseIntRoundTrip | src/main/java/uk/ac/sheffield/com1003/library/catalogue/Book.java:112 | every `int` written in decimal parses back to itself |
| JavaText.IntToStringInjective | src/main/java/uk/ac/sheffield/com1003/library/catalogue/Magazine.java:21 | two `int`s with the same decimal text are equal |
| StableSort.SortPermutes | src/main/java/uk/ac/sheffield/com1003/library/Library.java:241 | sorting is a permutation of its input |
| StableSort.SortSorted | src/main/java/uk/ac/sheffield/com1003/library/Library.java:241 | for a total preorder on keys, the result is sorted |
| StableSort.SortStable | src/main/java/uk/ac/sheffield/com1003/library/Library.java:279-283 | the elements of any one key come out in their input order |
| StableSort.InsertPermutes | src/main/java/uk/ac/sheffield/com1003/library/Library.java:241 | one insertion adds exactly the inserted element |
| StableSort.InsertSorted | src/main/java/uk/ac/sheffield/com1003/library/Library.java:241 | inserting into a sorted sequence keeps it sorted |
| StableSort.InsertStable | src/main/java/uk/ac/sheffield/com1003/library/Library.java:241 | an insertion places the new element after all earlier ones of its key |
| People.FromFullName | src/main/java/uk/ac/sheffield/com1003/library/Person.java:10-17 | the full-name constructor fails with `ParseException` exactly when the split gives fewer than two tokens; otherwise the names are tokens 0 and 1 of the split and neither holds a space (partners: `FromFullNameReadsPrefix`, `FromFullNameKeepsFirstTwo`) |
| People.FromFullNameReadsPrefix | src/main/java/uk/ac/sheffield/com1003/library/Person.java:10-17 | the parsed "first last" is a prefix of the input, followed by a space when the input is longer |
| People.DoubleSpaceGivesEmptyLastName | src/main/java/uk/ac/sheffield/com1003/library/Person.java:11-16 | "John  Doe", with two spaces, parses to first name "John" and an empty last name |
| People.FromFullNameKeepsFirstTwo | src/main/java/uk/ac/sheffield/com1003/library/Person.java:10-22 | "first last" parses to that person (what the two-argument constructor builds), and so does "first last" followed by any further words |
| People.SplitKeepsFirstTwo | src/main/java/uk/ac/sheffield/com1003/library/Person.java:15-16 | in "first last rest", tokens 0 and 1 are the first and the last name |
| People.NameWithoutSpaceRejected | src/test/java/uk/ac/sheffield/com1003/library/TestLibrary.java:26-33 | "Doe++John" is rejected with `ParseException` |
| People.PersonText | src/main/java/uk/ac/sheffield/com1003/library/Person.java:47-49 | `toString` starts with the last name and a comma, and is exactly two characters longer than the two names together (partner: `PersonTextInjective`) |
| People.PersonTextInjective | src/main/java/uk/ac/sheffield/com1003/library/Person.java:47-49 | "last, first" loses nothing when the last name has no comma: equal texts come from the same person |
| People.SamePerson | src/main/java/uk/ac/sheffield/com1003/library/Person.java:52-58 | `equals` holds exactly when the two persons are the same value, so it is an equivalence |
| Magazines.MagazineText | src/main/java/uk/ac/sheffield/com1003/library/catalogue/Magazine.java:19-22 | `toString` starts with "Magazine: title=", the title and "; year=" (partner: `MagazineTextShowsCopies`) |
| Magazines.MagazineTextShowsCopies | src/main/java/uk/ac/sheffield/com1003/library/catalogue/Magazine.java:19-22 | the text of a magazine determines its copy count, so it shows every change of the counter |
| Books.BookEquals | src/main/java/uk/ac/sheffield/com1003/library/catalogue/Book.java:82-95 | `false` unless one title is a prefix of the other; a null author crashes (null pointer); a first name with no token crashes (index out of range); `true` exactly when a title prefix holds, both authors are present, the last names are equal and the first tokens of the first names are equal |
| Books.BookEqualsSymmetric | src/main/java/uk/ac/sheffield/com1003/library/catalogue/Book.java:86-94 | the fuzzy equality of two distinct books is symmetric, crashes included |
| Books.BookEqualsSameValues | src/main/java/uk/ac/sheffield/com1003/library/catalogue/Book.java:86-94 | two books with the same title and author are equal, unless the first name has no token |
| Books.BookEqualsIgnoresMiddleNames | src/main/java/uk/ac/sheffield/com1003/library/catalogue/Book.java:89-91 | only the first token of the first name counts: "John Paul Doe" equals "John Doe" under a prefix title |
| Books.BookEqualsNotTransitive | src/main/java/uk/ac/sheffield/com1003/library/catalogue/Book.java:87 | a prefix chain breaks transitivity: "Book 1" = "Book" = "Book 2" but "Book 1" ≠ "Book 2" |
| Books.BookText | src/main/java/uk/ac/sheffield/com1003/library/catalogue/Book.java:174-180 | `toString` crashes exactly when the author is null; otherwise the line starts with "Book: Title=", the title, "; Author=", the author's "last, first" and "; ISBN=" (partners: `BookTextEnding`, `BookTextShowsGenre`) |
| Books.BookTextEnding | src/main/java/uk/ac/sheffield/com1003/library/catalogue/Book.java:174-180 | the line of a book with an author ends with "; Genre=" and the genre's name, "null" for no genre |
| Books.BookTextShowsGenre | src/main/java/uk/ac/sheffield/com1003/library/catalogue/Book.java:174-180 | two lines of the same title, author and ISBN are equal only when the genres are, so the line shows the genre |
| Books.BookTextOfFixture | src/test/java/uk/ac/sheffield/com1003/library/TestLibrary.java:65 | the text of the `createBook` fixture, author shown as "Doe, John" |
| Books.BookTextOfAltFixture | src/test/java/uk/ac/sheffield/com1003/library/TestLibrary.java:66 | the text of the `createBookAlt` fixture |
| Books.ExtractField | src/main/java/uk/ac/sheffield/com1003/library/catalogue/Book.java:128-164 | `extractField`: the only crash is index out of range; null exactly when "field=" occurs nowhere; a value read is shorter than the entry (partners: `ExtractFieldAbsent`, `ExtractFieldBracedValue`, `PlainValueReadsBack`) |
| Books.ExtractFieldAbsent | src/main/java/uk/ac/sheffield/com1003/library/catalogue/Book.java:129-132 | `extractField` gives null exactly when "field=" occurs nowhere |
| Books.ExtractFieldBracedValue | src/main/java/uk/ac/sheffield/com1003/library/catalogue/Book.java:139-161 | a value opening with '{' and closed by a '}' reads as the text from the '{' up to the first '}', trailing blanks cut |
| Books.ExtractFieldBraced | src/main/java/uk/ac/sheffield/com1003/library/catalogue/Book.java:139-161 | a braced value crashes `substring` exactly when no '}' follows; otherwise the result keeps its leading '{' and holds no closing brace |
| Books.ExtractFieldPlain | src/main/java/uk/ac/sheffield/com1003/library/catalogue/Book.java:141-163 | an unbraced value without commas or surrounding blanks reads back unchanged, whether a comma follows or the entry ends |
| Books.PlainValueReadsBack | src/main/java/uk/ac/sheffield/com1003/library/catalogue/Book.java:141-163 | any unbraced comma-free value ended by a comma or the end of input reads back trimmed, with a surrounding brace pair stripped |
| Books.ExtractFieldSpacedBraces | src/main/java/uk/ac/sheffield/com1003/library/catalogue/Book.java:141-163 | "title= {Book 1} ,year=2020" reads the title "Book 1": the value is trimmed first, then its braces are stripped |
| Books.ParseFields | src/main/java/uk/ac/sheffield/com1003/library/catalogue/Book.java:104-125 | a missing field gives `IllegalArgumentException`; with all four present, success exactly when the year parses and the author splits into two tokens, and any failure is `ParseException`; a success carries the fields as read |
| Books.ParseBibtex | src/main/java/uk/ac/sheffield/com1003/library/catalogue/Book.java:97-125 | a parsed entry's title and ISBN are the extracted ones; its author's names are the two tokens of the split of the extracted author, neither holding a space; its year is `parseInt` of the extracted year, an `int` |
| Books.ParseBibtexErrors | src/main/java/uk/ac/sheffield/com1003/library/catalogue/Book.java:104-121 | with the four reads not crashing: any missing field is `IllegalArgumentException`; with all present, parsing succeeds exactly when the year is numeric and the author is two tokens, and otherwise fails with `ParseException` |
| Catalogue.DecrementedChangesPositiveOnly | src/main/java/uk/ac/sheffield/com1003/library/catalogue/CatalogueItem.java:77-83 | the decrement changes the count exactly when it is positive, and then by one |
| Catalogue.DecrementedKeepsNonNegative | src/main/java/uk/ac/sheffield/com1003/library/catalogue/CatalogueItem.java:78-79 | a non-negative count stays non-negative and does not grow |
| Catalogue.DecrementUndoesAddCopy | src/main/java/uk/ac/sheffield/com1003/library/catalogue/CatalogueItem.java:73-83 | below the `int` maximum, `decrementCopies` undoes `addCopy` |
| Catalogue.AddCopiesInverse | src/main/java/uk/ac/sheffield/com1003/library/catalogue/CatalogueItem.java:65-67 | for every count and every `n`, `addCopies(-n)` undoes `addCopies(n)`, with both additions and the negation wrapping as Java `int` |
| Catalogue.CatalogueItem.constructor | src/main/java/uk/ac/sheffield/com1003/library/catalogue/CatalogueItem.java:25-30 | the four-argument constructor stores title, year, copies and ISBN |
| Catalogue.CatalogueItem.Default | src/main/java/uk/ac/sheffield/com1003/library/catalogue/CatalogueItem.java:9-11 | "Item", year 0, 0 copies, the placeholder ISBN |
| Catalogue.CatalogueItem.Titled | src/main/java/uk/ac/sheffield/com1003/library/catalogue/CatalogueItem.java:13-15 | the title given, otherwise the defaults |
| Catalogue.CatalogueItem.OfYear | src/main/java/uk/ac/sheffield/com1003/library/catalogue/CatalogueItem.java:17-19 | the title and year given, 0 copies, the placeholder ISBN |
| Catalogue.CatalogueItem.WithCopies | src/main/java/uk/ac/sheffield/com1003/library/catalogue/CatalogueItem.java:21-23 | title, year and copies given, the placeholder ISBN |
| Catalogue.CatalogueItem.Magazine | src/main/java/uk/ac/sheffield/com1003/library/catalogue/Magazine.java:6-9 | a magazine keeps title, year and number, with 0 copies and the placeholder ISBN |
| Catalogue.CatalogueItem.Book | src/main/java/uk/ac/sheffield/com1003/library/catalogue/Book.java:15-17 | a book with only a title: null author, ISBN and genre, 0 copies |
| Catalogue.CatalogueItem.BookBy | src/main/java/uk/ac/sheffield/com1003/library/catalogue/Book.java:18-21 | title and author, ISBN still null |
| Catalogue.CatalogueItem.BookWithIsbn | src/main/java/uk/ac/sheffield/com1003/library/catalogue/Book.java:23-27 | title, author and ISBN, the inherited year 0 |
| Catalogue.CatalogueItem.BookOfYear | src/main/java/uk/ac/sheffield/com1003/library/catalogue/Book.java:29-33 | the year goes to the inherited field; genre null |
| Catalogue.CatalogueItem.BookOfGenre | src/main/java/uk/ac/sheffield/com1003/library/catalogue/Book.java:35-40 | all five fields, 0 copies |
| Catalogue.CatalogueItem.BookWithCopies | src/main/java/uk/ac/sheffield/com1003/library/catalogue/Book.java:42-48 | all five fields and `nCopies` copies |
| Catalogue.CatalogueItem.Isbn | src/main/java/uk/ac/sheffield/com1003/library/catalogue/Book.java:58-60 | a book answers its own, possibly null, ISBN; other items the inherited one |
| Catalogue.CatalogueItem.Year | src/main/java/uk/ac/sheffield/com1003/library/catalogue/Book.java:66-68 | a book's year is always 0 (its hiding field is never set); other items answer the stored year |
| Catalogue.CatalogueItem.SetCopies | src/main/java/uk/ac/sheffield/com1003/library/catalogue/CatalogueItem.java:53-55 | any value is stored unchecked, negatives included |
| Catalogue.CatalogueItem.AddCopies | src/main/java/uk/ac/sheffield/com1003/library/catalogue/CatalogueItem.java:65-67 | the count moves by exactly `n`, with no sign check, wrapping as Java `int` |
| Catalogue.CatalogueItem.AddCopy | src/main/java/uk/ac/sheffield/com1003/library/catalogue/CatalogueItem.java:73-75 | the count grows by exactly one below the `int` maximum |
| Catalogue.CatalogueItem.DecrementCopies | src/main/java/uk/ac/sheffield/com1003/library/catalogue/CatalogueItem.java:77-83 | the count becomes the decremented one (one less when positive, else unchanged) and stays non-negative |
| Catalogue.CatalogueItem.IsAvailable | src/main/java/uk/ac/sheffield/com1003/library/catalogue/CatalogueItem.java:85-87 | `isAvailable()` holds exactly when at least one copy is left (partner: `AvailableIffPositive`) |
| Catalogue.AvailableIffPositive | src/main/java/uk/ac/sheffield/com1003/library/catalogue/CatalogueItem.java:85-87 | `isAvailable()` holds exactly when copies > 0, and holds after `addCopy` on a non-negative count |
| Catalogue.Equals | src/main/java/uk/ac/sheffield/com1003/library/catalogue/Book.java:82-95 | an item equals itself; a plain item or magazine equals only itself (inherited identity); a book compared with a non-book crashes on the cast; two books use the fuzzy equality |
| Catalogue.EqualsSymmetricOnBooks | src/main/java/uk/ac/sheffield/com1003/library/catalogue/Book.java:82-95 | `equals` between two books is symmetric |
| Catalogue.EqualsMatchesCopies | src/main/java/uk/ac/sheffield/com1003/library/catalogue/Book.java:86-94 | two distinct book objects with the same title and author are equal |
| Catalogue.MatchesKey | src/main/java/uk/ac/sheffield/com1003/library/Library.java:174 | the lookup test holds exactly when the title or the ISBN equals the key, and crashes exactly when the title differs and the ISBN is null |
| Catalogue.MatchesKeyFailsOnlyOnBookWithoutIsbn | src/main/java/uk/ac/sheffield/com1003/library/Library.java:174 | only a book without ISBN can make the lookup crash |
| Catalogue.ItemText | src/main/java/uk/ac/sheffield/com1003/library/Library.java:244 | `item.toString()` dispatches to the plain, magazine or book text, and fails exactly for a book without author |
| Catalogue.FromBibtex | src/main/java/uk/ac/sheffield/com1003/library/catalogue/Book.java:97-126 | fails exactly as the parse does; on success a fresh book is built with the four-argument constructor from the parsed fields |
| Loans.Opened | src/main/java/uk/ac/sheffield/com1003/library/Loan.java:28-34 | a new loan is open, made now and due `loanLength` days later |
| Loans.Step | src/main/java/uk/ac/sheffield/com1003/library/Loan.java:80-97 | both operations fail exactly on a returned loan, with `ItemAlreadyReturnedException`; neither changes the loan date |
| Loans.ReturnCloses | src/main/java/uk/ac/sheffield/com1003/library/Loan.java:80-86 | returning an open loan sets the returned date and keeps the other two |
| Loans.ExtendMovesDue | src/main/java/uk/ac/sheffield/com1003/library/Loan.java:92-97 | extending an open loan moves the due date by exactly the days given, negative ones included, and keeps it open |
| Loans.RunKeepsLoanDate | src/main/java/uk/ac/sheffield/com1003/library/Loan.java:80-97 | no sequence of operations changes the loan date |
| Loans.ReturnedIsFinal | src/main/java/uk/ac/sheffield/com1003/library/Loan.java:80-97 | once returned, no operation changes any date, so the returned date is never cleared |
| Loans.ExtensionsAdd | src/main/java/uk/ac/sheffield/com1003/library/Loan.java:92-97 | a series of extensions moves the due date by their sum |
| Loans.ReturnThenAnything | src/main/java/uk/ac/sheffield/com1003/library/Loan.java:80-97 | after a return, the dates stay those of that first return |
| Loans.LoanText | src/main/java/uk/ac/sheffield/com1003/library/Loan.java:106-119 | `toString` starts with "Loan: User=first last; Item=title; Due=" (partners: `LoanTextEnding`, `LoanTextTellsOpen`) |
| Loans.LoanTextEnding | src/main/java/uk/ac/sheffield/com1003/library/Loan.java:106-119 | the text is "Loan: User=first last; Item=title; Due=date; Returned=" then the returned date or "n/a" |
| Loans.LoanTextTellsOpen | src/main/java/uk/ac/sheffield/com1003/library/Loan.java:112-116 | when no formatted date reads "n/a", the text tells an open loan from a returned one |
| Loans.ReceiptLines | src/main/java/uk/ac/sheffield/com1003/library/Loan.java:66-73 | the receipt has five lines, ending with "Thank you!" |
| Loans.Loan.constructor | src/main/java/uk/ac/sheffield/com1003/library/Loan.java:28-34 | item and user are stored, and the dates are those of a loan opened now |
| Loans.Loan.ReturnItem | src/main/java/uk/ac/sheffield/com1003/library/Loan.java:80-86 | an open loan is closed at `now` and its item gains one copy; a returned loan fails and neither it nor the item changes |
| Loans.Loan.ExtendLoan | src/main/java/uk/ac/sheffield/com1003/library/Loan.java:92-97 | an open loan's dates follow the extension; a returned loan fails and keeps its dates |
| LibrarySpec.FirstFree | src/main/java/uk/ac/sheffield/com1003/library/Library.java:80-85 | the lowest empty slot, or the length when every slot is full |
| LibrarySpec.NonNullMembers | src/main/java/uk/ac/sheffield/com1003/library/Library.java:211-224 | an item is in the non-null list exactly when it is in a slot |
| LibrarySpec.NonNullGrows | src/main/java/uk/ac/sheffield/com1003/library/Library.java:211-224 | filling an empty slot lengthens the non-null list by one |
| LibrarySpec.NonNullOfEmpty | src/main/java/uk/ac/sheffield/com1003/library/Library.java:211-224 | an empty catalogue lists nothing |
| LibrarySpec.FindFrom | src/main/java/uk/ac/sheffield/com1003/library/Library.java:172-179 | a hit is a matching item and no earlier slot matches; a crash is a null pointer (partners: `FindNothingIff`, `FindCrashIff`) |
| LibrarySpec.FindCrashIff | src/main/java/uk/ac/sheffield/com1003/library/Library.java:172-179 | the lookup crashes exactly when it reaches a slot whose test fails (a Book with another title and no ISBN) with only non-matching slots before it |
| LibrarySpec.FindIn | src/main/java/uk/ac/sheffield/com1003/library/Library.java:172-179 | `findItem`: an item returned is in a slot and matches the key; a crash is a null pointer |
| LibrarySpec.FindNothingIff | src/main/java/uk/ac/sheffield/com1003/library/Library.java:172-179 | the lookup finds nothing exactly when every slot is empty or does not match |
| LibrarySpec.FindAfterPlace | src/main/java/uk/ac/sheffield/com1003/library/Library.java:172-179 | an item added under a key nothing matched is then what the key finds |
| LibrarySpec.FirstEqualFrom | src/main/java/uk/ac/sheffield/com1003/library/Library.java:127-128 | the scan of `removeCopy` gives an occupied slot, or a crash of `equals` (partners: `FirstEqualSkips`, `FirstEqualCrashIff`) |
| LibrarySpec.FirstEqualCrashIff | src/main/java/uk/ac/sheffield/com1003/library/Library.java:127-128 | the scan crashes exactly when it reaches a slot whose `equals` fails with only unequal slots before it |
| LibrarySpec.FirstEqualSkips | src/main/java/uk/ac/sheffield/com1003/library/Library.java:127-128 | the slot found is equal to the item, and every slot before it is empty or unequal |
| LibrarySpec.PresentItemIsHit | src/main/java/uk/ac/sheffield/com1003/library/Library.java:127-128 | an item present in a slot is always found, at that slot or earlier |
| LibrarySpec.EarlierEqualBookIsHit | src/main/java/uk/ac/sheffield/com1003/library/Library.java:128 | a different but fuzzy-equal book in an earlier slot is hit instead of the item asked for |
| LibrarySpec.CopyStep | src/main/java/uk/ac/sheffield/com1003/library/Library.java:126-138 | `removeCopy`: slot count and items known stay the same; when no copy is removed nothing changes; when a slot is emptied no count changes |
| LibrarySpec.CopyStepShrinks | src/main/java/uk/ac/sheffield/com1003/library/Library.java:126-138 | a removal only empties slots and lowers counts |
| LibrarySpec.RemoveCopiesShrinks | src/main/java/uk/ac/sheffield/com1003/library/Library.java:119-123 | so does any number of them |
| LibrarySpec.RemoveItemShrinks | src/main/java/uk/ac/sheffield/com1003/library/Library.java:94-124 | both `removeItem` overloads only empty slots and lower counts, and keep the items known |
| LibrarySpec.RemoveOne | src/main/java/uk/ac/sheffield/com1003/library/Library.java:94-104 | `removeItem(key)` changes the catalogue exactly when it succeeds, and succeeds only when the key finds an item |
| LibrarySpec.RemoveMany | src/main/java/uk/ac/sheffield/com1003/library/Library.java:112-124 | `removeItem(key, n)` succeeds only when the key finds an item; a key finding nothing fails with `ItemNotFoundException` and changes nothing; with `n <= 0` a found item passes unchanged |
| LibrarySpec.RemoveUnknownChangesNothing | src/main/java/uk/ac/sheffield/com1003/library/Library.java:94-116 | a key matching nothing makes both `removeItem` overloads fail with `ItemNotFoundException` and change nothing |
| LibrarySpec.RemoveOneNeverNoCopies | src/main/java/uk/ac/sheffield/com1003/library/Library.java:94-104 | once the item is found, the "no copies" exception cannot be thrown |
| LibrarySpec.NullsLastIsTotalPreorder | src/main/java/uk/ac/sheffield/com1003/library/Library.java:241 | `nullsLast(comparing(getTitle))` is a total preorder |
| LibrarySpec.SortedCatalogue | src/main/java/uk/ac/sheffield/com1003/library/Library.java:241 | the sorted catalogue is a permutation; empty slots come last; titles ascend; items of one title keep their order |
| LibrarySpec.SortOfSorted | src/main/java/uk/ac/sheffield/com1003/library/Library.java:241 | sorting sorted slots leaves them as they are |
| LibrarySpec.ItemLinesFrom | src/main/java/uk/ac/sheffield/com1003/library/Library.java:242-246 | at most one line per slot |
| LibrarySpec.ItemLinesOfEmpty | src/main/java/uk/ac/sheffield/com1003/library/Library.java:242-246 | empty slots print nothing |
| LibrarySpec.CatalogueReport | src/main/java/uk/ac/sheffield/com1003/library/Library.java:235-248 | border, welcome, "Catalogue", border first; when no item text fails, a border last |
| LibrarySpec.DaysLate | src/main/java/uk/ac/sheffield/com1003/library/Library.java:280-281 | `ChronoUnit.DAYS.between`: the whole days between the due date and now |
| LibrarySpec.OverdueFromExact | src/main/java/uk/ac/sheffield/com1003/library/Library.java:272-276 | the filter keeps exactly the loans due strictly before now, each with its text and days late |
| LibrarySpec.OverdueOfEmpty | src/main/java/uk/ac/sheffield/com1003/library/Library.java:272-276 | no loans, nothing overdue |
| LibrarySpec.OverdueOrder | src/main/java/uk/ac/sheffield/com1003/library/Library.java:278-283 | the report order is a permutation of the filtered loans, most days late first, loans of equal lateness in array order |
| LibrarySpec.OverdueLinesShape | src/main/java/uk/ac/sheffield/com1003/library/Library.java:289-294 | each loan's text is followed by a border |
| LibrarySpec.OverdueReport | src/main/java/uk/ac/sheffield/com1003/library/Library.java:260-296 | header of border, "Loans Overdue", border, and a border last |
| LibrarySpec.OverdueReportOfNoLoans | src/main/java/uk/ac/sheffield/com1003/library/Library.java:286-288 | with no loans the report is exactly border, "Loans Overdue", border, border |
| Libraries.Library.constructor | src/main/java/uk/ac/sheffield/com1003/library/Library.java:50-55 | name and loan length as given, 100 empty catalogue slots and 100 empty loan slots |
| Libraries.Library.Default | src/main/java/uk/ac/sheffield/com1003/library/Library.java:29-32 | "Library", 10 days |
| Libraries.Library.Named | src/main/java/uk/ac/sheffield/com1003/library/Library.java:39-42 | the given name, 10 days |
| Libraries.Library.Welcome | src/main/java/uk/ac/sheffield/com1003/library/Library.java:61-63 | the first 11 characters are "Welcome to " and the rest is exactly the library name (partner: `WelcomeScenario`) |
| Libraries.Library.AddItem | src/main/java/uk/ac/sheffield/com1003/library/Library.java:79-87 | true exactly when a slot is free; then the item is in the lowest free slot and no other slot changes; otherwise the catalogue is unchanged |
| Libraries.Library.FindItem | src/main/java/uk/ac/sheffield/com1003/library/Library.java:172-179 | what the lookup specification gives for the slots |
| Libraries.Library.RemoveCopy | src/main/java/uk/ac/sheffield/com1003/library/Library.java:126-138 | the slots and copy counts afterwards are those of `CopyStep`: every item counted beforehand, emptied ones included, has exactly the specified count afterwards, and nothing outside the catalogue changes; every slot keeps its item or is emptied |
| Libraries.Library.RemoveItem | src/main/java/uk/ac/sheffield/com1003/library/Library.java:94-104 | outcome and new slots are those of `RemoveOne`; every item counted beforehand, emptied ones included, has exactly the specified count afterwards, and nothing outside the catalogue changes |
| Libraries.Library.RemoveItemCopies | src/main/java/uk/ac/sheffield/com1003/library/Library.java:112-124 | outcome and new slots are those of `RemoveMany`; every item counted beforehand, emptied ones included, has exactly the specified count afterwards, and nothing outside the catalogue changes |
| Libraries.Library.RemoveCopiesOf | src/main/java/uk/ac/sheffield/com1003/library/Library.java:119-123 | the loop gives the outcome and slots of `RemoveCopies`; every item counted beforehand, emptied ones included, has exactly the specified count afterwards, and nothing outside the catalogue changes |
| Libraries.Library.RemoveRound | src/main/java/uk/ac/sheffield/com1003/library/Library.java:119-123 | one round of the loop: one `removeCopy`, after which either the rest of the loop still reaches the intended result or the loop stops with it |
| Libraries.Library.LoanItem | src/main/java/uk/ac/sheffield/com1003/library/Library.java:149-164 | succeeds exactly when the key finds an item, with no availability check; a missing key fails with `ItemNotFoundException`, a lookup crash propagates, and a failure changes no count; on success the loan is fresh, for the item found and the user, opened now for the library's loan length; that item gains one copy; the loans array is untouched |
| Libraries.Library.ReturnItem | src/main/java/uk/ac/sheffield/com1003/library/Library.java:185-187 | a null loan crashes; otherwise as `Loan.returnItem` |
| Libraries.Library.ExtendLoan | src/main/java/uk/ac/sheffield/com1003/library/Library.java:193-195 | a null loan crashes; otherwise as `Loan.extendLoan` |
| Libraries.Library.CopiesAvailable | src/main/java/uk/ac/sheffield/com1003/library/Library.java:202-204 | positive exactly when the item is available |
| Libraries.Library.GetCatalogue | src/main/java/uk/ac/sheffield/com1003/library/Library.java:211-224 | the non-null slots in slot order, so exactly the items in the catalogue |
| Libraries.Library.SortCatalogue | src/main/java/uk/ac/sheffield/com1003/library/Library.java:241 | the array is sorted in place into the stable title order with empty slots last |
| Libraries.Library.InsertSlot | src/main/java/uk/ac/sheffield/com1003/library/Library.java:241 | one insertion step of the in-place sort |
| Libraries.Library.ItemLines | src/main/java/uk/ac/sheffield/com1003/library/Library.java:242-246 | the loop prints the lines of the specification |
| Libraries.Library.PrintCatalogue | src/main/java/uk/ac/sheffield/com1003/library/Library.java:235-248 | the catalogue ends up sorted and the lines printed are the catalogue report of the sorted slots |
| Libraries.Library.CollectOverdue | src/main/java/uk/ac/sheffield/com1003/library/Library.java:269-276 | the loop collects exactly the filtered loans |
| Libraries.PrintLines | src/main/java/uk/ac/sheffield/com1003/library/Library.java:289-294 | the loop prints each loan's text followed by a border |
| Libraries.Library.PrintOverdue | src/main/java/uk/ac/sheffield/com1003/library/Library.java:260-296 | the lines printed are the overdue report; with no loans recorded they are the four fixed lines |
| Scenarios.CreateBook | src/test/java/uk/ac/sheffield/com1003/library/TestLibraryBase.java:45-54 | the `createBook` fixture |
| Scenarios.CreateBookAlt | src/test/java/uk/ac/sheffield/com1003/library/TestLibraryBase.java:56-65 | the `createBookAlt` fixture |
| Scenarios.WelcomeScenario | src/test/java/uk/ac/sheffield/com1003/library/TestLibrary.java:18-24 | "Welcome to Sheffield Central Library" |
| Scenarios.CatalogueSizeScenario | src/test/java/uk/ac/sheffield/com1003/library/TestLibrary.java:35-44 | one added book gives a catalogue of length 1 |
| Scenarios.TwoBookLibrary | src/test/java/uk/ac/sheffield/com1003/library/TestLibrary.java:49-55 | the two fixtures occupy slots 0 and 1 in order |
| Scenarios.PrintCatalogueScenario | src/test/java/uk/ac/sheffield/com1003/library/TestLibrary.java:46-68 | the exact seven lines the test expects |
| Scenarios.JoseRojas | src/test/java/uk/ac/sheffield/com1003/library/TestLibrary.java:77 | `new Person("Jose Rojas")` builds the person Jose Rojas |
| Scenarios.JoseRojasParses | src/test/java/uk/ac/sheffield/com1003/library/TestLibrary.java:77 | "Jose Rojas" parses to first name "Jose", last name "Rojas" |
| Scenarios.PrintOverdueScenario | src/test/java/uk/ac/sheffield/com1003/library/TestLibrary.java:71-86 | after a loan, at any time, the report is the four fixed lines (the loan is never recorded) |
| Scenarios.LoanNonExistentItemScenario | src/test/java/uk/ac/sheffield/com1003/library/TestLibrary.java:88-97 | loaning an unknown title fails with `ItemNotFoundException` |

## Left out

- Setters (`setTitle`, `setYear`, `setIsbn`, `setAuthor`, `setGenre`, `setNumber`, `setFirstName`, `setLastName`) and plain getters. No operation of the library calls them. Titles, years, ISBNs and kinds are therefore constant fields of an item, and `Person` is a value.
- `hashCode` of `Book` and `Person`: it relies on `Objects.hash`, an external library function.
- Console output: lines are returned instead of printed. The "No more copies available to decrement." message is a no-op.
- `LocalDateTime.now()` is the `now` parameter. Calendar formatting of dates is a function parameter. The range limits of `LocalDateTime` are not modelled.
- `Object.toString()` of a plain `CatalogueItem` (class name and identity hash) is a function parameter.
- Loans.ReceiptLines: `printReceipt` becomes its five lines, with the timestamp formatting as a parameter. Its contract states only the line count and the closing "Thank you!".
- `JavaText.ParseInt`: models `Integer.parseInt` on an optional sign followed by ASCII digits. Java also accepts non-ASCII Unicode digits, which the model rejects.
- `JavaText.LexLe`: compares `char` values. Java's `compareTo` compares UTF-16 code units, and the two agree only for characters in the Basic Multilingual Plane.
- Null strings and null items (a null title, key or name, a null person, or a null item given to `addItem` or `copiesAvailable`) are not modelled, because every parameter of the model is a non-null value or object. In the source `addItem(null)` returns true and leaves the slot empty. Nothing in the core passes them, and the Book fields that may be null are modelled as `Option`.
- `Person.equals` against `null` or another class is not modelled, because the model compares only `Person` values.
- `Libraries.Library.SortCatalogue`: proved against a stable insertion sort. `Arrays.sort` on objects is a stable merge sort, so the resulting order is the same.
- `Libraries.Library.RemoveItemCopies`: its loop is the separate method `RemoveCopiesOf`.
- Concurrency: the library is single-threaded.
- `App.java`: demo wiring and reading a BibTeX file with `Scanner` (file I/O). It is not part of this model.
- The exception classes: the model has one `Error` value per exception. The messages are not modelled.
- `loanItem` never stores the loan in the `loans` array, which faithfully follows the source. So `printOverdue` of any library built by these operations reports no loans.
