/** What `Book` adds to a catalogue item: an author, its own ISBN (null unless
    given), a genre (null unless given), the relaxed `equals`, the summary line
    and the BibTeX reading of `fromBibtex`. */
module Books {
  import opened Wrappers
  import opened JavaText
  import opened People

  datatype Genre = Unspecified | Nonfiction

  /** String concatenation of a possibly-null genre: the enum constant's name. */
  function GenreText(g: Option<Genre>): string
  {
    match g
    case None => "null"
    case Some(Unspecified) => "UNSPECIFIED"
    case Some(Nonfiction) => "NONFICTION"
  }

  /** String concatenation of a possibly-null string. */
  function NullableText(s: Option<string>): string
  {
    if s.Some? then s.value else "null"
  }

  /** The relaxed matching of `Book.equals` between two distinct Book objects
      (the identity test and the cast come first, with the item class): titles
      where one is a prefix of the other, the same first space-separated token of
      the authors' first names, and equal last names.  A null author is a
      `NullPointerException`; a first name made only of spaces splits into no
      token, and taking its first token is an index error. */
  function BookEquals(title: string, author: Option<Person>, otherTitle: string, otherAuthor: Option<Person>): (r: Result<bool>)
    ensures !(otherTitle <= title || title <= otherTitle) ==> r == Ok(false)
    ensures r.Err? <==> ((otherTitle <= title || title <= otherTitle)
      && (author.None? || otherAuthor.None? || |Split(author.value.firstName)| == 0
          || |Split(otherAuthor.value.firstName)| == 0))
    ensures r.Err? ==> r.error == (if author.None? || otherAuthor.None? then NullPointer else IndexOutOfBounds)
    ensures r == Ok(true) <==> ((otherTitle <= title || title <= otherTitle) && author.Some? && otherAuthor.Some?
      && author.value.lastName == otherAuthor.value.lastName
      && |Split(author.value.firstName)| > 0 && |Split(otherAuthor.value.firstName)| > 0
      && Split(author.value.firstName)[0] == Split(otherAuthor.value.firstName)[0])
  {
    if !(otherTitle <= title) && !(title <= otherTitle) then Ok(false)
    else if author.None? || otherAuthor.None? then Err(NullPointer)
    else
      var mine := Split(author.value.firstName);
      var theirs := Split(otherAuthor.value.firstName);
      if |mine| == 0 || |theirs| == 0 then Err(IndexOutOfBounds)
      else Ok(mine[0] == theirs[0] && author.value.lastName == otherAuthor.value.lastName)
  }

  /** The matching does not depend on which book is asked. */
  lemma BookEqualsSymmetric(t1: string, a1: Option<Person>, t2: string, a2: Option<Person>)
    ensures BookEquals(t1, a1, t2, a2) == BookEquals(t2, a2, t1, a1)
  {
  }

  /** Two books with the same title and author always match, unless the author's
      first name has no token at all. */
  lemma BookEqualsSameValues(t: string, p: Person)
    ensures BookEquals(t, Some(p), t, Some(p)) == if |Split(p.firstName)| == 0 then Err(IndexOutOfBounds) else Ok(true)
  {
  }

  /** Only the first token of a first name matters: "John Paul Doe" matches
      "John Doe" on any pair of prefix-related titles. */
  lemma BookEqualsIgnoresMiddleNames(first: string, middle: string, last: string, t1: string, t2: string)
    requires ' ' !in first && ' ' !in middle && middle != ""
    requires t1 <= t2
    ensures BookEquals(t1, Some(Person(first + " " + middle, last)), t2, Some(Person(first, last))) == Ok(true)
  {
    SplitTwoWords(first, middle);
  }

  /** The matching is not transitive: "Book" matches both "Book 1" and "Book 2",
      which do not match each other. */
  lemma BookEqualsNotTransitive()
    ensures var a := Some(Person("John", "Doe"));
      && BookEquals("Book 1", a, "Book", a) == Ok(true)
      && BookEquals("Book", a, "Book 2", a) == Ok(true)
      && BookEquals("Book 1", a, "Book 2", a) == Ok(false)
  {
    assert ' ' !in "John";
    assert "Book" <= "Book 1" && "Book" <= "Book 2";
    assert "Book 1"[5] != "Book 2"[5];
  }

  /** `Book.toString()`; the author's own `toString` is called, so a null author
      is a `NullPointerException`. */
  function BookText(title: string, author: Option<Person>, isbn: Option<string>, genre: Option<Genre>): (r: Result<string>)
    ensures r.Err? <==> author.None?
    ensures r.Ok? ==> "Book: Title=" + title + "; Author=" + PersonText(author.value) + "; ISBN=" <= r.value
  {
    if author.None? then Err(NullPointer)
    else Ok("Book: Title=" + title + "; Author=" + PersonText(author.value) + "; ISBN=" + NullableText(isbn)
      + "; Genre=" + GenreText(genre))
  }

  /** The summary line ends with the genre field, "null" for a null genre. */
  lemma BookTextEnding(title: string, author: Option<Person>, isbn: Option<string>, genre: Option<Genre>)
    requires author.Some?
    ensures var r, g := BookText(title, author, isbn, genre).value, "; Genre=" + GenreText(genre);
      |g| <= |r| && r[|r| - |g|..] == g
  {
    var front := "Book: Title=" + title + "; Author=" + PersonText(author.value) + "; ISBN=" + NullableText(isbn);
    assert BookText(title, author, isbn, genre).value == front + "; Genre=" + GenreText(genre);
    LastTwoParts(front, "; Genre=", GenreText(genre));
  }

  /** The last two parts of a concatenation are its suffix. */
  lemma LastTwoParts(a: string, b: string, c: string)
    ensures var s := a + b + c; |b + c| <= |s| && s[|s| - |b + c|..] == b + c
  {
    assert (a + b + c)[|a|..] == b + c;
  }

  /** The summary line shows the genre: two lines of the same book that differ
      only in the genre are equal only when the genres are. */
  lemma BookTextShowsGenre(title: string, author: Option<Person>, isbn: Option<string>, g1: Option<Genre>, g2: Option<Genre>)
    requires author.Some? && BookText(title, author, isbn, g1) == BookText(title, author, isbn, g2)
    ensures g1 == g2
  {
    var front := "Book: Title=" + title + "; Author=" + PersonText(author.value) + "; ISBN=" + NullableText(isbn)
      + "; Genre=";
    assert BookText(title, author, isbn, g1).value == front + GenreText(g1);
    assert BookText(title, author, isbn, g2).value == front + GenreText(g2);
    assert (front + GenreText(g1))[|front|..] == GenreText(g1);
    assert (front + GenreText(g2))[|front|..] == GenreText(g2);
  }

  /** The part of both fixture lines before the ISBN. */
  lemma FixtureFront()
    ensures "Book: Title=" + "Book 1" + "; Author=" + PersonText(Person("John", "Doe")) + "; ISBN="
      == "Book: Title=Book 1; Author=Doe, John; ISBN="
  {
    assert PersonText(Person("John", "Doe")) == "Doe, John";
    assert "Book: Title=" + "Book 1" == "Book: Title=Book 1";
    assert "Book: Title=Book 1" + "; Author=" == "Book: Title=Book 1; Author=";
    assert "Book: Title=Book 1; Author=" + "Doe, John" == "Book: Title=Book 1; Author=Doe, John";
  }

  /** The summary line the test suite expects for its first fixture book. */
  lemma BookTextOfFixture()
    ensures BookText("Book 1", Some(Person("John", "Doe")), Some("9780136083238"), Some(Nonfiction))
      == Ok("Book: Title=Book 1; Author=Doe, John; ISBN=9780136083238; Genre=NONFICTION")
  {
    FixtureFront();
    assert NullableText(Some("9780136083238")) == "9780136083238" && GenreText(Some(Nonfiction)) == "NONFICTION";
    assert BookText("Book 1", Some(Person("John", "Doe")), Some("9780136083238"), Some(Nonfiction)).value
      == "Book: Title=Book 1; Author=Doe, John; ISBN=" + "9780136083238" + "; Genre=" + "NONFICTION";
    assert "Book: Title=Book 1; Author=Doe, John; ISBN=" + "9780136083238"
      == "Book: Title=Book 1; Author=Doe, John; ISBN=9780136083238";
    assert "Book: Title=Book 1; Author=Doe, John; ISBN=9780136083238" + "; Genre="
      == "Book: Title=Book 1; Author=Doe, John; ISBN=9780136083238; Genre=";
    assert "Book: Title=Book 1; Author=Doe, John; ISBN=9780136083238; Genre=" + "NONFICTION"
      == "Book: Title=Book 1; Author=Doe, John; ISBN=9780136083238; Genre=NONFICTION";
  }

  /** The summary line the test suite expects for its second fixture book. */
  lemma BookTextOfAltFixture()
    ensures BookText("Book 1", Some(Person("John", "Doe")), Some("9781111111111"), Some(Unspecified))
      == Ok("Book: Title=Book 1; Author=Doe, John; ISBN=9781111111111; Genre=UNSPECIFIED")
  {
    FixtureFront();
    assert NullableText(Some("9781111111111")) == "9781111111111" && GenreText(Some(Unspecified)) == "UNSPECIFIED";
    assert BookText("Book 1", Some(Person("John", "Doe")), Some("9781111111111"), Some(Unspecified)).value
      == "Book: Title=Book 1; Author=Doe, John; ISBN=" + "9781111111111" + "; Genre=" + "UNSPECIFIED";
    assert "Book: Title=Book 1; Author=Doe, John; ISBN=" + "9781111111111"
      == "Book: Title=Book 1; Author=Doe, John; ISBN=9781111111111";
    assert "Book: Title=Book 1; Author=Doe, John; ISBN=9781111111111" + "; Genre="
      == "Book: Title=Book 1; Author=Doe, John; ISBN=9781111111111; Genre=";
    assert "Book: Title=Book 1; Author=Doe, John; ISBN=9781111111111; Genre=" + "UNSPECIFIED"
      == "Book: Title=Book 1; Author=Doe, John; ISBN=9781111111111; Genre=UNSPECIFIED";
  }

  // ---------------------------------------------------------------------------
  // fromBibtex

  /** Where the value of `field` would start: just past the first "field=". */
  function ValueStart(bibtex: string, field: string): int
  {
    var at := IndexOf(bibtex, field + "=", 0);
    if at == -1 then -1 else at + |field| + 1
  }

  /** Removes one pair of surrounding braces. */
  function StripBraces(v: string): (r: string)
    ensures |r| <= |v|
  {
    if |v| > 0 && v[0] == '{' && v[|v| - 1] == '}' then v[1..|v| - 1] else v
  }

  /** `extractField(bibtex, field)`: `None` (null) when "field=" does not occur.
      At a '{', the value runs up to the first '}' (which must exist) and keeps
      its '{'; otherwise it runs to the next ',' or the end.  The value is
      trimmed and a surrounding pair of braces removed.  A "field=" at the very
      end reads past the string: an index error. */
  function ExtractField(bibtex: string, field: string): (r: Result<Option<string>>)
    ensures r.Err? ==> r.error == IndexOutOfBounds
    ensures r == Ok(None) <==> ValueStart(bibtex, field) == -1
    ensures r.Ok? && r.value.Some? ==> |r.value.value| < |bibtex|
  {
    var start := ValueStart(bibtex, field);
    if start == -1 then Ok(None)
    else if start >= |bibtex| then Err(IndexOutOfBounds)
    else if bibtex[start] == '{' then
      var end := IndexOf(bibtex, "}", start);
      if end == -1 then Err(IndexOutOfBounds)
      else Ok(Some(StripBraces(Trim(bibtex[start..end]))))
    else
      var comma := IndexOf(bibtex, ",", start);
      var end := if comma == -1 then |bibtex| else comma;
      Ok(Some(StripBraces(Trim(bibtex[start..end]))))
  }

  /** A field is absent exactly when "field=" occurs nowhere. */
  lemma ExtractFieldAbsent(bibtex: string, field: string)
    ensures ExtractField(bibtex, field) == Ok(None) <==> forall p: nat :: !OccursAt(bibtex, field + "=", p)
  {
    var at := IndexOf(bibtex, field + "=", 0);
    if at != -1 {
      assert OccursAt(bibtex, field + "=", at);
    }
  }

  /** Scanning with `indexOf` for a single character `c`: no `c` lies between
      `from` and the position found (or the end), and a `c` lies at the position
      found. */
  lemma NoCharBefore(s: string, c: char, from: nat, at: int)
    requires from <= |s| && at == IndexOf(s, [c], from)
    ensures forall k | from <= k < (if at == -1 then |s| else at) :: s[k] != c
    ensures at != -1 ==> from <= at < |s| && s[at] == c
  {
    forall k | from <= k < (if at == -1 then |s| else at) ensures s[k] != c {
      SingleCharOccurs(s, c, k);
    }
    if at != -1 {
      SingleCharOccurs(s, c, at);
    }
  }

  /** A one-character pattern occurs exactly where that character is. */
  lemma SingleCharOccurs(s: string, c: char, k: nat)
    ensures OccursAt(s, [c], k) <==> k < |s| && s[k] == c
  {
    if k < |s| {
      assert s[k..k + 1] == [s[k]];
    }
  }

  /** At a '{' followed somewhere by a '}', the value is the text from the '{'
      up to the first '}' after it, with trailing blanks removed: the '{' stays
      and nothing is stripped. */
  lemma ExtractFieldBracedValue(bibtex: string, field: string, end: nat)
    requires 0 <= ValueStart(bibtex, field) < |bibtex| && bibtex[ValueStart(bibtex, field)] == '{'
    requires ValueStart(bibtex, field) < end < |bibtex| && bibtex[end] == '}'
    requires forall k :: ValueStart(bibtex, field) <= k < end ==> bibtex[k] != '}'
    ensures ExtractField(bibtex, field) == Ok(Some(TrimEnd(bibtex[ValueStart(bibtex, field)..end])))
  {
    var start := ValueStart(bibtex, field);
    var at := IndexOf(bibtex, "}", start);
    SingleCharOccurs(bibtex, '}', end);
    NoCharBefore(bibtex, '}', start, at);
    assert at == end;
    BracedRawValue(bibtex, start, end);
    BracedValueTrimmed(bibtex[start..end]);
  }

  /** Trimming a value that opens with '{' and holds no '}' only cuts its
      tail, and no brace pair is then stripped. */
  lemma BracedValueTrimmed(raw: string)
    requires OpensWithoutClosing(raw)
    ensures StripBraces(Trim(raw)) == TrimEnd(raw)
  {
    TrimStartKeeps(raw);
    TrimEndNonEmpty(raw);
    var t := TrimEnd(raw);
    assert t[|t| - 1] == raw[|t| - 1];
  }

  /** A braced value keeps its opening '{' and holds no '}'; without a closing
      '}' the call fails. */
  lemma ExtractFieldBraced(bibtex: string, field: string)
    requires 0 <= ValueStart(bibtex, field) < |bibtex| && bibtex[ValueStart(bibtex, field)] == '{'
    ensures ExtractField(bibtex, field).Err? <==>
      forall k :: ValueStart(bibtex, field) <= k < |bibtex| ==> bibtex[k] != '}'
    ensures ExtractField(bibtex, field).Ok? ==> ExtractField(bibtex, field).value.Some?
    ensures ExtractField(bibtex, field).Ok? ==> OpensWithoutClosing(ExtractField(bibtex, field).value.value)
  {
    var start := ValueStart(bibtex, field);
    var end := IndexOf(bibtex, "}", start);
    NoCharBefore(bibtex, '}', start, end);
    if end != -1 {
      BracedRawValue(bibtex, start, end);
      BracedValueKept(bibtex[start..end]);
    }
  }

  /** The text between a '{' and the first '}' after it opens without
      closing. */
  lemma BracedRawValue(bibtex: string, start: nat, end: int)
    requires start < |bibtex| && bibtex[start] == '{' && end == IndexOf(bibtex, "}", start) && end != -1
    ensures start <= end <= |bibtex| && OpensWithoutClosing(bibtex[start..end])
  {
    NoCharBefore(bibtex, '}', start, end);
    var raw := bibtex[start..end];
    forall k | 0 <= k < |raw| ensures raw[k] != '}' {
      assert raw[k] == bibtex[start + k];
    }
  }

  /** Starts with '{' and holds no '}'. */
  predicate OpensWithoutClosing(v: string)
  {
    v != [] && v[0] == '{' && '}' !in v
  }

  lemma BracedValueKept(raw: string)
    requires OpensWithoutClosing(raw)
    ensures OpensWithoutClosing(StripBraces(Trim(raw)))
  {
    TrimKeepsFirst(raw);
    TrimIsSlice(raw);
    var v := Trim(raw);
    var i := |raw| - |TrimStart(raw)|;
    forall k | 0 <= k < |v| ensures v[k] != '}' {
      assert v[k] == raw[i + k];
    }
  }

  /** A plain value written right after "field=" and ended by a comma (or by the
      end of the entry) reads back unchanged. */
  lemma ExtractFieldPlain(field: string, v: string, rest: string)
    requires v != [] && v[0] != '{' && ',' !in v
    requires !IsTrimmed(v[0]) && !IsTrimmed(v[|v| - 1])
    ensures ExtractField(field + "=" + v + "," + rest, field) == Ok(Some(v))
    ensures ExtractField(field + "=" + v, field) == Ok(Some(v))
  {
    PlainValueKept(v);
    assert field + "=" + v + "," + rest == field + "=" + v + ("," + rest);
    PlainValueReadsBack(field, v, "," + rest);
    assert field + "=" + v + "" == field + "=" + v;
    PlainValueReadsBack(field, v, "");
  }

  /** A value without surrounding blanks or a leading brace is kept as it is. */
  lemma PlainValueKept(v: string)
    requires v != [] && v[0] != '{' && !IsTrimmed(v[0]) && !IsTrimmed(v[|v| - 1])
    ensures StripBraces(Trim(v)) == v
  {
    TrimStartKeeps(v);
    TrimEndKeeps(v);
    assert Trim(v) == v;
  }

  /** An unbraced value right after "field=", ended by a comma or by the end of
      the entry, is read trimmed and with a surrounding brace pair removed. */
  lemma PlainValueReadsBack(field: string, v: string, tail: string)
    requires v != [] && v[0] != '{' && ',' !in v
    requires tail == [] || tail[0] == ','
    ensures ExtractField(field + "=" + v + tail, field) == Ok(Some(StripBraces(Trim(v))))
  {
    var key := field + "=";
    var b := key + v + tail;
    var end := |key| + |v|;
    assert OccursAt(b, key, 0) by { assert b[0..|key|] == key; }
    assert ValueStart(b, field) == |key|;
    assert b[|key|] == v[0];
    var comma := IndexOf(b, ",", |key|);
    forall p: nat | |key| <= p < end ensures !OccursAt(b, ",", p) {
      assert b[p..p + 1] == [v[p - |key|]];
    }
    if tail != [] {
      assert OccursAt(b, ",", end) by { assert b[end..end + 1] == [tail[0]]; }
      assert comma == end;
    } else {
      assert comma == -1;
      assert end == |b|;
    }
    assert b[|key|..end] == v;
  }

  /** The fields `fromBibtex` reads from an entry. */
  datatype BibtexBook = BibtexBook(title: string, author: Person, isbn: string, year: int)

  /** An unbraced value is trimmed before its braces are removed, so blanks
      around a brace pair do not keep the braces in. */
  lemma ExtractFieldSpacedBraces()
    ensures ExtractField("title= {Book 1} ,year=2020", "title") == Ok(Some("Book 1"))
  {
    var v := " {Book 1} ";
    assert "title= {Book 1} ,year=2020" == "title" + "=" + v + ",year=2020";
    PlainValueReadsBack("title", v, ",year=2020");
    SpacedBracesTrimmed();
  }

  lemma SpacedBracesTrimmed()
    ensures StripBraces(Trim(" {Book 1} ")) == "Book 1"
  {
    assert TrimStart(" {Book 1} ") == TrimStart("{Book 1} ") == "{Book 1} ";
    assert TrimEnd("{Book 1} ") == TrimEnd("{Book 1}") == "{Book 1}";
  }

  /** `Book.fromBibtex` before the book object is built: the four fields are
      read in order (a failing read propagates), then checked by `ParseFields`. */
  function ParseBibtex(bibtex: string): (r: Result<BibtexBook>)
    ensures r.Ok? ==> ExtractField(bibtex, "title") == Ok(Some(r.value.title))
    ensures r.Ok? ==> ExtractField(bibtex, "isbn") == Ok(Some(r.value.isbn))
    ensures r.Ok? ==>
      (ExtractField(bibtex, "author").Ok? && ExtractField(bibtex, "author").value.Some? &&
       [r.value.author.firstName, r.value.author.lastName] == Split(ExtractField(bibtex, "author").value.value))
    ensures r.Ok? ==>
      (ExtractField(bibtex, "year").Ok? && ExtractField(bibtex, "year").value.Some? &&
       Some(r.value.year) == ParseInt(ExtractField(bibtex, "year").value.value))
    ensures r.Ok? ==> ' ' !in r.value.author.firstName && ' ' !in r.value.author.lastName
    ensures r.Ok? ==> IntMin <= r.value.year <= IntMax
  {
    var title :- ExtractField(bibtex, "title");
    var authorName :- ExtractField(bibtex, "author");
    var isbn :- ExtractField(bibtex, "isbn");
    var yearText :- ExtractField(bibtex, "year");
    ParseFields(title, authorName, isbn, yearText)
  }

  /** The checks `fromBibtex` makes on the four values read: a missing one is
      an `IllegalArgumentException`; with all four present, the entry parses
      exactly when the year is a number and the author is two space-separated
      tokens, and otherwise it is a `ParseException`. */
  function ParseFields(title: Option<string>, authorName: Option<string>, isbn: Option<string>,
                       yearText: Option<string>): (r: Result<BibtexBook>)
    ensures (title.None? || authorName.None? || isbn.None? || yearText.None?) ==> r == Err(IllegalArgument)
    ensures (title.Some? && authorName.Some? && isbn.Some? && yearText.Some?) ==>
      (r.Ok? <==> ParseInt(yearText.value).Some? && |Split(authorName.value)| == 2)
    ensures r.Err? ==> r.error == IllegalArgument || r.error == ParseFailure
    ensures (title.Some? && authorName.Some? && isbn.Some? && yearText.Some?) && r.Err? ==> r.error == ParseFailure
    ensures r.Ok? ==> title == Some(r.value.title) && isbn == Some(r.value.isbn)
    ensures r.Ok? ==> Some(r.value.year) == ParseInt(yearText.value)
    ensures r.Ok? ==> [r.value.author.firstName, r.value.author.lastName] == Split(authorName.value)
    ensures r.Ok? ==> ' ' !in r.value.author.firstName && ' ' !in r.value.author.lastName
    ensures r.Ok? ==> IntMin <= r.value.year <= IntMax
  {
    if title.None? || authorName.None? || isbn.None? || yearText.None? then Err(IllegalArgument)
    else
      var year := ParseInt(yearText.value);
      if year.None? then Err(ParseFailure)
      else
        var names := Split(authorName.value);
        SplitTokensHaveNoSpace(authorName.value);
        if |names| != 2 then Err(ParseFailure)
        else Ok(BibtexBook(title.value, Person(names[0], names[1]), isbn.value, year.value))
  }

  /** Once no field read has failed, `fromBibtex` is exactly the checks of
      `ParseFields` on the values read. */
  lemma ParseBibtexErrors(bibtex: string)
    requires ExtractField(bibtex, "title").Ok? && ExtractField(bibtex, "author").Ok?
    requires ExtractField(bibtex, "isbn").Ok? && ExtractField(bibtex, "year").Ok?
    ensures var title, author, isbn, year := ExtractField(bibtex, "title").value,
        ExtractField(bibtex, "author").value, ExtractField(bibtex, "isbn").value, ExtractField(bibtex, "year").value;
      && ((title.None? || author.None? || isbn.None? || year.None?) ==> ParseBibtex(bibtex) == Err(IllegalArgument))
      && ((title.Some? && author.Some? && isbn.Some? && year.Some?) ==>
         (ParseBibtex(bibtex).Ok? <==> ParseInt(year.value).Some? && |Split(author.value)| == 2))
      && ((title.Some? && author.Some? && isbn.Some? && year.Some?) && ParseBibtex(bibtex).Err? ==>
         ParseBibtex(bibtex).error == ParseFailure)
  {
    var title, author, isbn, year := ExtractField(bibtex, "title").value,
        ExtractField(bibtex, "author").value, ExtractField(bibtex, "isbn").value, ExtractField(bibtex, "year").value;
    assert ParseBibtex(bibtex) == ParseFields(title, author, isbn, year);
  }

}
