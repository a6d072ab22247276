/** `Loan`: one item lent to one person, with a due date that can be pushed
    back until the item is returned.  Dates are timestamps in seconds; the
    current time is a parameter wherever the source reads the clock. */
module Loans {
  import opened Wrappers
  import opened JavaText
  import opened People
  import opened Catalogue

  /** One day in seconds: `plusDays(n)` on a `LocalDateTime`, which has no time
      zone, adds exactly n times this. */
  const Day := 86400

  /** The three dates of a loan; `returnedDate` is null while the loan is open. */
  datatype LoanDates = LoanDates(loanDate: int, dueDate: int, returnedDate: Option<int>)
  {
    predicate IsOpen() { returnedDate.None? }
  }

  /** What can happen to a loan: the item comes back at some time, or the loan
      is extended by some days. */
  datatype Event = Return(at: int) | Extend(days: Int32)

  /** The dates of a loan made at `now` for `loanLength` days. */
  function Opened(now: int, loanLength: Int32): (d: LoanDates)
    ensures d.IsOpen() && d.loanDate == now && d.dueDate - d.loanDate == loanLength * Day
  {
    LoanDates(now, now + loanLength * Day, None)
  }

  /** One event: both operations fail on a returned loan and change nothing. */
  function Step(d: LoanDates, e: Event): (r: Result<LoanDates>)
    ensures r.Err? <==> !d.IsOpen()
    ensures r.Err? ==> r.error == ItemAlreadyReturned
    ensures r.Ok? ==> r.value.loanDate == d.loanDate
  {
    if !d.IsOpen() then Err(ItemAlreadyReturned)
    else match e
      case Return(at) => Ok(d.(returnedDate := Some(at)))
      case Extend(days) => Ok(d.(dueDate := d.dueDate + days * Day))
  }

  /** A sequence of events, each failing one leaving the dates as they were
      (the caller catches the exception and carries on). */
  function Run(d: LoanDates, es: seq<Event>): LoanDates
    decreases |es|
  {
    if es == [] then d
    else
      var r := Step(d, es[0]);
      Run(if r.Ok? then r.value else d, es[1..])
  }

  /** Returning an open loan closes it at that time and keeps the due date. */
  lemma ReturnCloses(d: LoanDates, at: int)
    requires d.IsOpen()
    ensures Step(d, Return(at)) == Ok(LoanDates(d.loanDate, d.dueDate, Some(at)))
  {
  }

  /** Extending an open loan moves the due date by exactly the days given,
      negative ones included, and leaves it open. */
  lemma ExtendMovesDue(d: LoanDates, days: Int32)
    requires d.IsOpen()
    ensures Step(d, Extend(days)).Ok?
    ensures var e := Step(d, Extend(days)).value;
      e.IsOpen() && e.loanDate == d.loanDate && e.dueDate - d.dueDate == days * Day
  {
  }

  /** The loan date never changes, whatever happens. */
  lemma {:induction false} RunKeepsLoanDate(d: LoanDates, es: seq<Event>)
    ensures Run(d, es).loanDate == d.loanDate
    decreases |es|
  {
    if es != [] {
      var r := Step(d, es[0]);
      RunKeepsLoanDate(if r.Ok? then r.value else d, es[1..]);
    }
  }

  /** Once returned, a loan is frozen: no event changes any of its dates, so
      the returned date is never cleared. */
  lemma {:induction false} ReturnedIsFinal(d: LoanDates, es: seq<Event>)
    requires !d.IsOpen()
    ensures Run(d, es) == d
    decreases |es|
  {
    if es != [] {
      ReturnedIsFinal(d, es[1..]);
    }
  }

  /** The total extension of a sequence of events, in days. */
  function ExtensionDays(es: seq<Event>): int
  {
    if es == [] then 0
    else (if es[0].Extend? then es[0].days else 0) + ExtensionDays(es[1..])
  }

  /** While no return happens, the due date moves by exactly the sum of the
      extensions. */
  lemma {:induction false} ExtensionsAdd(d: LoanDates, es: seq<Event>)
    requires d.IsOpen()
    requires forall k :: 0 <= k < |es| ==> es[k].Extend?
    ensures Run(d, es).IsOpen() && Run(d, es).loanDate == d.loanDate
    ensures Run(d, es).dueDate == d.dueDate + ExtensionDays(es) * Day
    decreases |es|
  {
    if es != [] {
      ExtensionsAdd(Step(d, es[0]).value, es[1..]);
    }
  }

  /** After a return, the returned date stays the one of that first return. */
  lemma ReturnThenAnything(d: LoanDates, at: int, es: seq<Event>)
    requires d.IsOpen()
    ensures Run(d, [Return(at)] + es) == LoanDates(d.loanDate, d.dueDate, Some(at))
  {
    assert ([Return(at)] + es)[1..] == es;
    ReturnedIsFinal(LoanDates(d.loanDate, d.dueDate, Some(at)), es);
  }

  /** `toString()` of a loan, with the `dd-MM-yyyy` day formatting given as
      `day`. */
  function LoanText(user: Person, title: string, d: LoanDates, day: int -> string): (r: string)
    ensures "Loan: User=" + FullName(user) + "; Item=" + title + "; Due=" <= r
  {
    "Loan: User=" + FullName(user) + "; Item=" + title + "; Due=" + day(d.dueDate)
      + (if d.returnedDate.Some? then "; Returned=" + day(d.returnedDate.value) else "; Returned=n/a")
  }

  /** The text of a loan tells whether it is still open, as long as no formatted
      day reads "n/a". */
  lemma LoanTextTellsOpen(user: Person, title: string, d1: LoanDates, d2: LoanDates, day: int -> string)
    requires forall t :: day(t) != "n/a"
    requires d1.dueDate == d2.dueDate
    requires LoanText(user, title, d1, day) == LoanText(user, title, d2, day)
    ensures d1.IsOpen() <==> d2.IsOpen()
  {
    LoanTextEnding(user, title, d1, day);
    LoanTextEnding(user, title, d2, day);
    var head := "Loan: User=" + FullName(user) + "; Item=" + title + "; Due=" + day(d1.dueDate) + "; Returned=";
    assert LoanText(user, title, d1, day)[|head|..] == LoanText(user, title, d2, day)[|head|..];
    assert d1.IsOpen() ==> LoanText(user, title, d1, day)[|head|..] == "n/a";
    assert d2.IsOpen() ==> LoanText(user, title, d2, day)[|head|..] == "n/a";
    assert !d1.IsOpen() ==> LoanText(user, title, d1, day)[|head|..] == day(d1.returnedDate.value);
    assert !d2.IsOpen() ==> LoanText(user, title, d2, day)[|head|..] == day(d2.returnedDate.value);
    if !d1.IsOpen() {
      var v := d1.returnedDate.value;
      assert day(v) != "n/a";
    }
    if !d2.IsOpen() {
      var v := d2.returnedDate.value;
      assert day(v) != "n/a";
    }
  }

  /** A loan's text is a head fixed by the user, the title and the due date,
      then the returned date or "n/a". */
  lemma LoanTextEnding(user: Person, title: string, d: LoanDates, day: int -> string)
    ensures var head := "Loan: User=" + FullName(user) + "; Item=" + title + "; Due=" + day(d.dueDate) + "; Returned=";
      |head| <= |LoanText(user, title, d, day)|
      && LoanText(user, title, d, day)[..|head|] == head
      && LoanText(user, title, d, day)[|head|..] == if d.IsOpen() then "n/a" else day(d.returnedDate.value)
  {
  }

  /** The lines of `printReceipt()`, with the `dd-MM-yyyy HH:mm:ss` formatting
      given as `stamp`. */
  function ReceiptLines(user: Person, title: string, d: LoanDates, stamp: int -> string): (r: seq<string>)
    ensures |r| == 5 && r[4] == "Thank you!"
  {
    [ "Loan date: " + stamp(d.loanDate),
      FullName(user) + " has borrowed " + title,
      "Date due: " + stamp(d.dueDate),
      "Returned: " + (if d.returnedDate.Some? then stamp(d.returnedDate.value) else "n/a"),
      "Thank you!" ]
  }

  class Loan {
    const item: CatalogueItem
    const user: Person
    const loanDate: int
    var dueDate: int
    var returnedDate: Option<int>

    function Dates(): LoanDates
      reads this
    {
      LoanDates(loanDate, dueDate, returnedDate)
    }

    /** `Loan(item, user, loanLength)` at time `now`. */
    constructor (item: CatalogueItem, user: Person, loanLength: Int32, now: int)
      ensures this.item == item && this.user == user
      ensures Dates() == Opened(now, loanLength)
    {
      this.item := item;
      this.user := user;
      loanDate := now;
      dueDate := now + loanLength * Day;
      returnedDate := None;
    }

    /** `returnItem()` at time `now`: closes the loan and gives the item its copy
        back; on a returned loan it fails and changes nothing. */
    method ReturnItem(now: int) returns (o: Outcome)
      modifies this, item
      ensures Step(old(Dates()), Return(now)).Ok? ==> o == Pass && Dates() == Step(old(Dates()), Return(now)).value
      ensures Step(old(Dates()), Return(now)).Ok? ==> item.copies == Wrap32(old(item.copies) + 1)
      ensures Step(old(Dates()), Return(now)).Err? ==> o == Fail(ItemAlreadyReturned)
      ensures Step(old(Dates()), Return(now)).Err? ==> Dates() == old(Dates()) && item.copies == old(item.copies)
    {
      if returnedDate.Some? {
        return Fail(ItemAlreadyReturned);
      }
      returnedDate := Some(now);
      item.AddCopy();
      return Pass;
    }

    /** `extendLoan(days)`: moves the due date; on a returned loan it fails and
        changes nothing. */
    method ExtendLoan(days: Int32) returns (o: Outcome)
      modifies this
      ensures o.Pass? <==> Step(old(Dates()), Extend(days)).Ok?
      ensures o.Fail? ==> o.error == ItemAlreadyReturned
      ensures Dates() == if o.Pass? then Step(old(Dates()), Extend(days)).value else old(Dates())
    {
      if returnedDate.Some? {
        return Fail(ItemAlreadyReturned);
      }
      dueDate := dueDate + days * Day;
      return Pass;
    }

    /** `toString()`. */
    function Text(day: int -> string): string
      reads this
    {
      LoanText(user, item.title, Dates(), day)
    }
  }
}
