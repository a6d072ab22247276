/** What `Magazine` adds to a catalogue item: an issue number and its summary
    line.  A magazine keeps the placeholder ISBN and the identity `equals` it
    inherits; both live with the item class. */
module Magazines {
  import opened JavaText

  /** `Magazine.toString()`. */
  function MagazineText(title: string, year: Int32, number: Int32, copies: Int32): (r: string)
    ensures "Magazine: title=" + title + "; year=" <= r
  {
    "Magazine: title=" + title + "; year=" + IntToString(year) + "; number=" + IntToString(number)
      + "; copies=" + IntToString(copies)
  }

  /** The summary line tells the copy count: two summaries of the same issue agree
      only when the counts agree, so every change of copies shows in it. */
  lemma MagazineTextShowsCopies(title: string, year: Int32, number: Int32, c1: Int32, c2: Int32)
    requires MagazineText(title, year, number, c1) == MagazineText(title, year, number, c2)
    ensures c1 == c2
  {
    var prefix := "Magazine: title=" + title + "; year=" + IntToString(year) + "; number="
      + IntToString(number) + "; copies=";
    assert MagazineText(title, year, number, c1) == prefix + IntToString(c1);
    assert MagazineText(title, year, number, c2) == prefix + IntToString(c2);
    assert (prefix + IntToString(c1))[|prefix|..] == IntToString(c1);
    assert (prefix + IntToString(c2))[|prefix|..] == IntToString(c2);
    IntToStringInjective(c1, c2);
  }
}
