/** `Person`: the identity of a borrower or an author, a first and a last name. */
module People {
  import opened Wrappers
  import opened JavaText

  datatype Person = Person(firstName: string, lastName: string)

  /** `new Person(fullName)`: the full name is split on single spaces; the first
      token is the first name and the second the last name, later tokens are
      dropped, and fewer than two tokens is a `ParseException`. */
  function FromFullName(fullName: string): (r: Result<Person>)
    ensures r.Err? <==> |Split(fullName)| < 2
    ensures r.Err? ==> r.error == ParseFailure
    ensures r.Ok? ==> r.value.firstName == Split(fullName)[0] && r.value.lastName == Split(fullName)[1]
    ensures r.Ok? ==> ' ' !in r.value.firstName && ' ' !in r.value.lastName
  {
    var names := Split(fullName);
    SplitTokensHaveNoSpace(fullName);
    if |names| < 2 then Err(ParseFailure) else Ok(Person(names[0], names[1]))
  }

  /** `toString()`: "<last name>, <first name>". */
  function PersonText(p: Person): (r: string)
    ensures |r| == |p.lastName| + 2 + |p.firstName|
    ensures r[..|p.lastName|] == p.lastName && r[|p.lastName|] == ','
  {
    p.lastName + ", " + p.firstName
  }

  /** `toString()` loses nothing when the last name holds no comma: equal texts
      come from the same person. */
  lemma PersonTextInjective(p: Person, q: Person)
    requires ',' !in p.lastName && ',' !in q.lastName
    requires PersonText(p) == PersonText(q)
    ensures p == q
  {
    CommaEndsLastName(p, q);
    CommaEndsLastName(q, p);
    var a, b := PersonText(p), PersonText(q);
    assert p.lastName == a[..|p.lastName|] == b[..|q.lastName|] == q.lastName;
    assert p.firstName == a[|p.lastName| + 2..] == b[|q.lastName| + 2..] == q.firstName;
  }

  /** The first comma of the text ends the last name, so two equal texts have
      last names of the same length. */
  lemma CommaEndsLastName(p: Person, q: Person)
    requires ',' !in q.lastName
    requires PersonText(p) == PersonText(q)
    ensures |q.lastName| <= |p.lastName|
  {
    CommaAfterLastName(p);
  }

  /** The text has a comma right after the last name. */
  lemma CommaAfterLastName(p: Person)
    ensures |p.lastName| < |PersonText(p)| && PersonText(p)[|p.lastName|] == ','
  {
  }

  /** "<first name> <last name>", as loans and receipts show their user. */
  function FullName(p: Person): string
  {
    p.firstName + " " + p.lastName
  }

  /** `equals`: both names equal, which is exactly equality of the two values
      (so it is an equivalence relation). */
  function SamePerson(p: Person, q: Person): (r: bool)
    ensures r <==> p == q
  {
    p.firstName == q.firstName && p.lastName == q.lastName
  }

  /** Dropping trailing empty pieces never touches a prefix that ends in a
      non-empty piece. */
  lemma {:induction false} DropTrailingEmptyKeepsPrefix(a: seq<string>, b: seq<string>)
    requires a != [] && a[|a| - 1] != ""
    ensures |DropTrailingEmpty(a + b)| >= |a| && DropTrailingEmpty(a + b)[..|a|] == a
  {
    if b == [] {
      assert a + b == a;
    } else if b[|b| - 1] == "" {
      assert (a + b)[..|a + b| - 1] == a + b[..|b| - 1];
      DropTrailingEmptyKeepsPrefix(a, b[..|b| - 1]);
    } else {
      assert (a + b)[..|a|] == a;
    }
  }

  /** A full name made of a first and a non-empty last name, both without
      spaces, and then optionally more words, parses back to that person. */
  lemma FromFullNameKeepsFirstTwo(p: Person, rest: string)
    requires ' ' !in p.firstName && ' ' !in p.lastName && p.lastName != ""
    ensures FromFullName(FullName(p)) == Ok(p)
    ensures FromFullName(FullName(p) + " " + rest) == Ok(p)
  {
    SplitTwoWords(p.firstName, p.lastName);
    SplitKeepsFirstTwo(p.firstName, p.lastName, rest);
    assert FullName(p) + " " + rest == p.firstName + " " + p.lastName + " " + rest;
  }

  /** Splitting "first last rest" gives first and last as its first two tokens. */
  lemma SplitKeepsFirstTwo(first: string, last: string, rest: string)
    requires ' ' !in first && ' ' !in last && last != ""
    ensures var t := Split(first + " " + last + " " + rest);
      |t| >= 2 && t[0] == first && t[1] == last
  {
    var s := first + " " + last + " " + rest;
    assert s == first + " " + (last + " " + rest);
    PiecesOfWordThenSpace(first, last + " " + rest);
    PiecesOfWordThenSpace(last, rest);
    assert Pieces(s) == [first, last] + Pieces(rest);
    assert s[|first|] == ' ';
    DropTrailingEmptyKeepsPrefix([first, last], Pieces(rest));
  }

  /** What is parsed is the start of the full name: the first name, one
      space and the last name, followed by nothing or by a space. */
  lemma FromFullNameReadsPrefix(fullName: string)
    requires FromFullName(fullName).Ok?
    ensures var n := FullName(FromFullName(fullName).value);
      n <= fullName && (|n| < |fullName| ==> fullName[|n|] == ' ')
  {
    var p := FromFullName(fullName).value;
    assert ' ' in fullName;
    var ps := Pieces(fullName);
    assert ps[0] == p.firstName && ps[1] == p.lastName;
    PiecesJoin(fullName);
    JoinStartsWithFirstTwo(ps);
  }

  /** Joining at least two pieces starts with the first two and a space between
      them, and a space follows when more pieces come. */
  lemma JoinStartsWithFirstTwo(ps: seq<string>)
    requires |ps| >= 2
    ensures var n := ps[0] + " " + ps[1];
      n <= JoinWithSpaces(ps) && (|n| < |JoinWithSpaces(ps)| ==> JoinWithSpaces(ps)[|n|] == ' ')
  {
    var tail := ps[1..];
    assert JoinWithSpaces(ps) == ps[0] + " " + JoinWithSpaces(tail);
    if |tail| > 1 {
      assert JoinWithSpaces(tail) == ps[1] + " " + JoinWithSpaces(tail[1..]);
      assert JoinWithSpaces(ps) == ps[0] + " " + ps[1] + " " + JoinWithSpaces(tail[1..]);
    }
  }

  /** Two spaces in a row give an empty last name, and the word after them is
      dropped. */
  lemma DoubleSpaceGivesEmptyLastName()
    ensures FromFullName("John  Doe") == Ok(Person("John", ""))
  {
    var s := "John  Doe";
    assert s[4] == ' ';
    PiecesOfEmptyMiddle("John", "Doe");
    assert s == "John" + "  " + "Doe";
  }

  /** Two space-free words with two spaces between them have an empty piece in
      the middle. */
  lemma PiecesOfEmptyMiddle(f: string, l: string)
    requires ' ' !in f && ' ' !in l
    ensures Pieces(f + "  " + l) == [f, "", l]
  {
    assert f + "  " + l == f + " " + (" " + l);
    PiecesOfWordThenSpace(f, " " + l);
    assert "" + " " + l == " " + l;
    PiecesOfWordThenSpace("", l);
    PiecesOfWord(l);
    assert Pieces(" " + l) == ["", l];
  }

  /** The rejected name of the test suite: no space, so a single token. */
  lemma NameWithoutSpaceRejected()
    ensures FromFullName("Doe++John") == Err(ParseFailure)
  {
    assert ' ' !in "Doe++John";
  }
}
