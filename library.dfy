/** `Library`: a fixed array of catalogue slots, a fixed array of loans, a name
    and a loan length.  Every method is proved against the value-level
    definitions of `LibrarySpec`. */
module Libraries {
  import opened Wrappers
  import opened JavaText
  import opened People
  import opened Catalogue
  import opened Loans
  import opened StableSort
  import opened LibrarySpec

  class Library {
    const name: string
    const loanLength: Int32
    const catalogue: array<CatalogueItem?>
    const loans: array<Loan?>

    ghost predicate Valid()
    {
      catalogue.Length == Capacity && loans.Length == Capacity
    }

    /** No loan has ever been recorded; no method writes the loans array, so
        this holds from construction on. */
    ghost predicate NoLoansRecorded()
      reads loans
    {
      forall k :: 0 <= k < loans.Length ==> loans[k] == null
    }

    /** The heap holds the shelf `sh`: the slots are the catalogue, and every
        item that has a count in `sh` (whether still in a slot or not) has that
        many copies. */
    ghost predicate Agrees(sh: Shelf)
      reads catalogue, catalogue[..], sh.copies.Keys
    {
      && sh.slots == catalogue[..] && sh.Covers()
      && forall x :: x in sh.copies ==> x.copies == sh.copies[x]
    }

    /** The shelf of the current heap: the slots, and the copy count of exactly
        the items in them. */
    ghost function ShelfOf(): (sh: Shelf)
      reads catalogue, catalogue[..]
      ensures forall x :: x in sh.copies ==> x in catalogue[..]
      ensures Agrees(sh)
    {
      var items := set i | 0 <= i < catalogue.Length && catalogue[i] != null :: catalogue[i];
      Shelf(catalogue[..], map x | x in items :: x.copies)
    }

    /** `Library(name, loanLength)`. */
    constructor (name: string, loanLength: Int32)
      ensures this.name == name && this.loanLength == loanLength
      ensures Valid() && fresh(catalogue) && fresh(loans) && NoLoansRecorded()
      ensures forall i :: 0 <= i < catalogue.Length ==> catalogue[i] == null
    {
      this.name := name;
      this.loanLength := loanLength;
      catalogue := new CatalogueItem?[Capacity](_ => null);
      loans := new Loan?[Capacity](_ => null);
    }

    /** `Library()`: named "Library", loans of 10 days. */
    constructor Default()
      ensures name == "Library" && loanLength == 10
      ensures Valid() && fresh(catalogue) && fresh(loans) && NoLoansRecorded()
      ensures forall i :: 0 <= i < catalogue.Length ==> catalogue[i] == null
    {
      name := "Library";
      loanLength := 10;
      catalogue := new CatalogueItem?[Capacity](_ => null);
      loans := new Loan?[Capacity](_ => null);
    }

    /** `Library(name)`: loans of 10 days. */
    constructor Named(name: string)
      ensures this.name == name && loanLength == 10
      ensures Valid() && fresh(catalogue) && fresh(loans) && NoLoansRecorded()
      ensures forall i :: 0 <= i < catalogue.Length ==> catalogue[i] == null
    {
      this.name := name;
      loanLength := 10;
      catalogue := new CatalogueItem?[Capacity](_ => null);
      loans := new Loan?[Capacity](_ => null);
    }

    /** `welcome()`. */
    function Welcome(): (r: string)
      ensures |r| == 11 + |name| && r[..11] == "Welcome to " && r[11..] == name
    {
      "Welcome to " + name
    }

    /** `addItem(newItem)`: the item goes into the lowest empty slot; with every
        slot taken nothing changes and the answer is false. */
    method AddItem(newItem: CatalogueItem) returns (added: bool)
      requires Valid()
      modifies catalogue
      ensures added <==> FirstFree(old(catalogue[..])) < Capacity
      ensures added ==> catalogue[..] == old(catalogue[..])[FirstFree(old(catalogue[..])) := newItem]
      ensures !added ==> catalogue[..] == old(catalogue[..])
    {
      var i := 0;
      while i < catalogue.Length
        invariant 0 <= i <= catalogue.Length
        invariant catalogue[..] == old(catalogue[..])
        invariant forall j :: 0 <= j < i ==> catalogue[j] != null
      {
        if catalogue[i] == null {
          catalogue[i] := newItem;
          return true;
        }
        i := i + 1;
      }
      return false;
    }

    /** `findItem(key)`: the first item whose title or ISBN is the key, or null. */
    method FindItem(key: string) returns (r: Result<CatalogueItem?>)
      requires Valid()
      ensures r == FindIn(catalogue[..], key)
    {
      var i := 0;
      while i < catalogue.Length
        invariant 0 <= i <= catalogue.Length
        invariant FindFrom(catalogue[..], key, i) == FindFrom(catalogue[..], key, 0)
      {
        var item := catalogue[i];
        if item != null {
          if item.title == key {
            return Ok(item);
          }
          var isbn := item.Isbn();
          if isbn.None? {
            return Err(NullPointer);
          }
          if isbn.value == key {
            return Ok(item);
          }
        }
        i := i + 1;
      }
      return Ok(null);
    }

    /** `removeCopy(item)`, on the shelf `sh` that the heap holds. */
    method RemoveCopy(item: CatalogueItem, ghost sh: Shelf) returns (r: Result<bool>)
      requires Valid() && Agrees(sh)
      modifies catalogue, catalogue[..]
      ensures r == CopyStep(sh, item).removed && Agrees(CopyStep(sh, item).after)
      ensures forall i :: 0 <= i < catalogue.Length ==> catalogue[i] == old(catalogue[i]) || catalogue[i] == null
    {
      var i := 0;
      while i < catalogue.Length
        invariant 0 <= i <= catalogue.Length
        invariant FirstEqualFrom(catalogue[..], item, i) == FirstEqualFrom(catalogue[..], item, 0)
      {
        var x := catalogue[i];
        if x != null {
          var eq := Equals(x, item);
          if eq.Err? {
            return Err(eq.error);
          }
          if eq.value {
            break;
          }
        }
        i := i + 1;
      }
      if i == catalogue.Length {
        return Ok(false);
      }
      var x := catalogue[i];
      assert x in catalogue[..];
      if x.copies > 1 {
        x.DecrementCopies();
      } else {
        catalogue[i] := null;
      }
      return Ok(true);
    }

    /** `removeItem(key)`: one copy of the item found, as `removeCopy` removes it. */
    method RemoveItem(key: string) returns (o: Outcome)
      requires Valid()
      modifies catalogue, catalogue[..]
      ensures o == RemoveOne(old(ShelfOf()), key).outcome && Agrees(RemoveOne(old(ShelfOf()), key).after)
    {
      ghost var sh := ShelfOf();
      var found := FindItem(key);
      if found.Err? {
        return Fail(found.error);
      }
      if found.value == null {
        return Fail(ItemNotFound);
      }
      var removed := RemoveCopy(found.value, sh);
      if removed.Err? {
        return Fail(removed.error);
      }
      if !removed.value {
        return Fail(ItemNotFound);
      }
      return Pass;
    }

    /** `removeItem(key, n)`: up to n copies of the item found. */
    method RemoveItemCopies(key: string, n: Int32) returns (o: Outcome)
      requires Valid()
      modifies catalogue, catalogue[..]
      ensures o == RemoveMany(old(ShelfOf()), key, n).outcome && Agrees(RemoveMany(old(ShelfOf()), key, n).after)
    {
      ghost var sh := ShelfOf();
      var found := FindItem(key);
      if found.Err? {
        return Fail(found.error);
      }
      if found.value == null {
        return Fail(ItemNotFound);
      }
      o := RemoveCopiesOf(found.value, n, sh);
    }

    /** The loop of `removeItem(key, n)` once the item is found. */
    method RemoveCopiesOf(item: CatalogueItem, n: Int32, ghost sh: Shelf) returns (o: Outcome)
      requires Valid() && Agrees(sh)
      modifies catalogue, catalogue[..]
      ensures o == RemoveCopies(sh, item, n).outcome && Agrees(RemoveCopies(sh, item, n).after)
    {
      ghost var cur := sh;
      ghost var goal := RemoveCopies(sh, item, n);
      ghost var left: int := n;
      var i := 0;
      while i < n
        invariant Agrees(cur)
        invariant i >= 0 && left == n - i && RemoveCopies(cur, item, left) == goal
        invariant forall k :: 0 <= k < catalogue.Length ==> catalogue[k] == old(catalogue[k]) || catalogue[k] == null
      {
        var removed;
        removed, cur := RemoveRound(item, cur, left, goal);
        if removed.Err? {
          return Fail(removed.error);
        }
        if !removed.value {
          return Pass;
        }
        i := i + 1;
        left := left - 1;
      }
      return Pass;
    }

    /** One round of the loop of `removeItem(key, n)`: one `removeCopy`, with
        `left` rounds (this one included) still to go towards `goal`. */
    method RemoveRound(item: CatalogueItem, ghost cur: Shelf, ghost left: int, ghost goal: ItemRemoval)
      returns (removed: Result<bool>, ghost next: Shelf)
      requires Valid() && Agrees(cur) && left > 0 && RemoveCopies(cur, item, left) == goal
      modifies catalogue, catalogue[..]
      ensures Agrees(next)
      ensures forall k :: 0 <= k < catalogue.Length ==> catalogue[k] == old(catalogue[k]) || catalogue[k] == null
      ensures removed == Ok(true) ==> RemoveCopies(next, item, left - 1) == goal
      ensures removed != Ok(true) ==>
        goal == ItemRemoval(if removed.Err? then Fail(removed.error) else Pass, next)
    {
      RemoveCopiesStep(cur, item, left);
      removed := RemoveCopy(item, cur);
      next := CopyStep(cur, item).after;
    }

    /** `loanItem(key, user)` at time `now`: a new open loan of the item found,
        whose copy count goes up by one; the loans array is left as it is. */
    method LoanItem(key: string, user: Person, now: int) returns (r: Result<Loan>)
      requires Valid()
      modifies catalogue[..]
      ensures FindIn(catalogue[..], key).Err? ==> r == Err(FindIn(catalogue[..], key).error)
      ensures FindIn(catalogue[..], key) == Ok(null) ==> r == Err(ItemNotFound)
      ensures r.Ok? <==> FindIn(catalogue[..], key).Ok? && FindIn(catalogue[..], key).value != null
      ensures r.Err? ==> forall i :: 0 <= i < catalogue.Length && catalogue[i] != null ==>
        catalogue[i].copies == old(catalogue[i].copies)
      ensures r.Ok? ==> FindIn(catalogue[..], key).Ok? && FindIn(catalogue[..], key).value == r.value.item
      ensures r.Ok? ==> fresh(r.value) && r.value.user == user && r.value.Dates() == Opened(now, loanLength)
      ensures r.Ok? ==> forall i :: 0 <= i < catalogue.Length && catalogue[i] != null ==>
        catalogue[i].copies == if catalogue[i] == r.value.item then Wrap32(old(catalogue[i].copies) + 1) else old(catalogue[i].copies)
      ensures unchanged(loans)
    {
      var found := FindItem(key);
      if found.Err? {
        return Err(found.error);
      }
      if found.value == null {
        return Err(ItemNotFound);
      }
      var item := found.value;
      assert item in catalogue[..];
      var loan := new Loan(item, user, loanLength, now);
      item.AddCopy();
      return Ok(loan);
    }

    /** `returnItem(loan)` at time `now`: what `Loan.returnItem` does; a null
        loan is dereferenced. */
    method ReturnItem(loan: Loan?, now: int) returns (o: Outcome)
      modifies if loan == null then {} else {loan, loan.item}
      ensures loan == null ==> o == Fail(NullPointer)
      ensures loan != null ==> o == (if Step(old(loan.Dates()), Return(now)).Ok? then Pass else Fail(ItemAlreadyReturned))
      ensures loan != null && o.Pass? ==>
        loan.Dates() == Step(old(loan.Dates()), Return(now)).value && loan.item.copies == Wrap32(old(loan.item.copies) + 1)
      ensures loan != null && o.Fail? ==> loan.Dates() == old(loan.Dates()) && loan.item.copies == old(loan.item.copies)
    {
      if loan == null {
        return Fail(NullPointer);
      }
      o := loan.ReturnItem(now);
    }

    /** `extendLoan(loan, days)`: what `Loan.extendLoan` does; a null loan is
        dereferenced. */
    method ExtendLoan(loan: Loan?, days: Int32) returns (o: Outcome)
      modifies loan
      ensures loan == null ==> o == Fail(NullPointer)
      ensures loan != null ==> o == (if Step(old(loan.Dates()), Extend(days)).Ok? then Pass else Fail(ItemAlreadyReturned))
      ensures loan != null ==>
        loan.Dates() == if o.Pass? then Step(old(loan.Dates()), Extend(days)).value else old(loan.Dates())
    {
      if loan == null {
        return Fail(NullPointer);
      }
      o := loan.ExtendLoan(days);
    }

    /** `copiesAvailable(item)`. */
    function CopiesAvailable(item: CatalogueItem): (r: Int32)
      reads item
      ensures r > 0 <==> item.IsAvailable()
    {
      item.copies
    }

    /** `getCatalogue()`: the occupied slots in slot order. */
    method GetCatalogue() returns (items: seq<CatalogueItem>)
      requires Valid()
      ensures items == NonNull(catalogue[..])
      ensures forall x :: x in items <==> x in catalogue[..]
    {
      items := [];
      var i := 0;
      while i < catalogue.Length
        invariant 0 <= i <= catalogue.Length
        invariant items == NonNull(catalogue[..i])
      {
        assert catalogue[..i + 1][..i] == catalogue[..i];
        if catalogue[i] != null {
          items := items + [catalogue[i]];
        }
        i := i + 1;
      }
      assert catalogue[..i] == catalogue[..];
      forall x ensures x in items <==> x in catalogue[..] {
        NonNullMembers(catalogue[..], x);
      }
    }

    /** The `Arrays.sort` call of `printCatalogue`: a stable insertion sort of
        the whole slot array by title, empty slots last. */
    method SortCatalogue()
      requires Valid()
      modifies catalogue
      ensures catalogue[..] == Sort(old(catalogue[..]), SlotKey, NullsLast)
    {
      ghost var a := catalogue[..];
      var i := 0;
      while i < catalogue.Length
        invariant 0 <= i <= catalogue.Length
        invariant catalogue[..] == Sort(a[..i], SlotKey, NullsLast) + a[i..]
      {
        ghost var sorted := Sort(a[..i], SlotKey, NullsLast);
        InsertionStart(sorted, a, i);
        assert catalogue[i] == a[i];
        InsertSlot(i, sorted, a[i + 1..]);
        SortExtend(a, i, SlotKey, NullsLast);
        i := i + 1;
      }
      assert a[..i] == a;
    }

    /** One insertion step: the slot at `i` moves left past every greater one. */
    method InsertSlot(i: nat, ghost sorted: seq<CatalogueItem?>, ghost rest: seq<CatalogueItem?>)
      requires i < catalogue.Length && |sorted| == i
      requires catalogue[..] == sorted + [catalogue[i]] + rest
      modifies catalogue
      ensures catalogue[..] == Insert(sorted, old(catalogue[i]), SlotKey, NullsLast) + rest
    {
      var x := catalogue[i];
      assert sorted[..i] == sorted && sorted[i..] == [];
      assert catalogue[..] == sorted[..i] + [x] + sorted[i..] + rest;
      var j := i;
      while j > 0 && !NullsLast(SlotKey(catalogue[j - 1]), SlotKey(x))
        invariant 0 <= j <= i
        invariant catalogue[..] == sorted[..j] + [x] + sorted[j..] + rest
        invariant Insert(sorted, x, SlotKey, NullsLast) == Insert(sorted[..j], x, SlotKey, NullsLast) + sorted[j..]
      {
        ghost var before := catalogue[..];
        assert catalogue[j - 1] == sorted[j - 1];
        InsertBack(sorted, x, SlotKey, NullsLast, j);
        SwapBack(sorted, x, rest, j);
        catalogue[j - 1], catalogue[j] := x, catalogue[j - 1];
        assert catalogue[..] == before[j - 1 := x][j := sorted[j - 1]];
        j := j - 1;
      }
      InsertStop(sorted, x, SlotKey, NullsLast, j);
    }

    /** `printCatalogue()`: sorts the slots in place, then prints the header,
        the text of each item and a border; a failing `toString` ends the
        report with that failure.  A plain item's `Object.toString()` is
        `objectText`. */
    method PrintCatalogue(objectText: CatalogueItem -> string) returns (report: Report)
      requires Valid()
      modifies catalogue
      ensures catalogue[..] == Sort(old(catalogue[..]), SlotKey, NullsLast)
      ensures report == CatalogueReport(Welcome(), catalogue[..], objectText)
    {
      var head := [Border, Welcome(), "Catalogue", Border];
      SortCatalogue();
      var items := ItemLines(objectText);
      if items.outcome.Pass? {
        report := Report(head + items.lines + [Border], Pass);
      } else {
        report := Report(head + items.lines, items.outcome);
      }
    }

    /** The item loop of `printCatalogue`: each occupied slot's text in slot
        order, ending early at a failing `toString`. */
    method ItemLines(objectText: CatalogueItem -> string) returns (r: Report)
      ensures r == ItemLinesFrom(catalogue[..], objectText, 0)
    {
      ghost var s := catalogue[..];
      var body: seq<string> := [];
      var i := 0;
      while i < catalogue.Length
        invariant 0 <= i <= catalogue.Length
        invariant ItemLinesFrom(s, objectText, 0)
          == Report(body + ItemLinesFrom(s, objectText, i).lines, ItemLinesFrom(s, objectText, i).outcome)
      {
        ItemLinesStep(s, objectText, i);
        var item := catalogue[i];
        assert item == s[i];
        if item != null {
          var text := ItemText(item, objectText(item));
          if text.Err? {
            return Report(body, Fail(text.error));
          }
          body := body + [text.value];
        }
        i := i + 1;
      }
      return Report(body, Pass);
    }

    /** `printOverdue()` at time `now`: the loans due strictly before `now`,
        most days late first, each followed by a border; a single border when
        there are none.  Dates are formatted by `day`. */
    method PrintOverdue(now: int, day: int -> string) returns (lines: seq<string>)
      requires Valid()
      ensures lines == OverdueReport(loans[..], now, day)
      ensures NoLoansRecorded() ==> lines == [Border, "Loans Overdue", Border, Border]
    {
      var overdue := CollectOverdue(now, day);
      overdue := Sort(overdue, DaysLateOf, LateFirst);
      if overdue == [] {
        lines := [Border, "Loans Overdue", Border, Border];
      } else {
        var body := PrintLines(overdue);
        lines := [Border, "Loans Overdue", Border] + body;
      }
      if NoLoansRecorded() {
        OverdueReportOfNoLoans(loans[..], now, day);
      }
    }

    /** The filtering loop of `printOverdue`: the loans due before `now`, in
        slot order. */
    method CollectOverdue(now: int, day: int -> string) returns (overdue: seq<Overdue>)
      ensures overdue == OverdueFrom(loans[..], now, day, 0)
    {
      ghost var ls := loans[..];
      overdue := [];
      var i := 0;
      while i < loans.Length
        invariant 0 <= i <= loans.Length
        invariant overdue + OverdueFrom(ls, now, day, i) == OverdueFrom(ls, now, day, 0)
      {
        OverdueStep(ls, now, day, i);
        var loan := loans[i];
        assert loan == ls[i];
        if loan != null && loan.dueDate < now {
          var e := Overdue(loan.Text(day), DaysLate(loan.dueDate, now));
          assert overdue + OverdueFrom(ls, now, day, i) == (overdue + [e]) + OverdueFrom(ls, now, day, i + 1);
          overdue := overdue + [e];
        }
        i := i + 1;
      }
    }
  }

  /** The printing loop of `printOverdue`: each text, then a border. */
  method PrintLines(overdue: seq<Overdue>) returns (lines: seq<string>)
    ensures lines == OverdueLines(overdue)
  {
    lines := [];
    var k := 0;
    while k < |overdue|
      invariant 0 <= k <= |overdue|
      invariant lines + OverdueLines(overdue[k..]) == OverdueLines(overdue)
    {
      assert overdue[k..][1..] == overdue[k + 1..];
      lines := lines + [overdue[k].text, Border];
      k := k + 1;
    }
  }

  // ---------------------------------------------------------------------------
  // Sequence steps of the loops above.

  /** Before the insertion loop: the element at `i` sits between the sorted
      prefix and the untouched rest. */
  lemma InsertionStart<T>(sorted: seq<T>, a: seq<T>, i: nat)
    requires i < |a| && |sorted| == i
    ensures sorted + a[i..] == sorted + [a[i]] + a[i + 1..]
  {
    assert a[i..] == [a[i]] + a[i + 1..];
  }

  /** Swapping the inserted element with its left neighbour moves it one place
      to the front. */
  lemma SwapBack<T>(s: seq<T>, x: T, rest: seq<T>, j: nat)
    requires 0 < j <= |s|
    ensures (s[..j] + [x] + s[j..] + rest)[j - 1 := x][j := s[j - 1]] == s[..j - 1] + [x] + s[j - 1..] + rest
  {
    assert s[..j] == s[..j - 1] + [s[j - 1]];
    assert s[j - 1..] == [s[j - 1]] + s[j..];
  }

  /** The insertion point lies before a greater element at `j - 1`. */
  lemma InsertBack<T, K>(s: seq<T>, x: T, key: T -> K, le: (K, K) -> bool, j: nat)
    requires 0 < j <= |s| && !le(key(s[j - 1]), key(x))
    requires Insert(s, x, key, le) == Insert(s[..j], x, key, le) + s[j..]
    ensures Insert(s, x, key, le) == Insert(s[..j - 1], x, key, le) + s[j - 1..]
  {
    InsertShift(s, x, key, le, j);
    ConcatShift(Insert(s[..j - 1], x, key, le), s, j);
  }

  lemma ConcatShift<T>(a: seq<T>, s: seq<T>, j: nat)
    requires 0 < j <= |s|
    ensures a + [s[j - 1]] + s[j..] == a + s[j - 1..]
  {
    assert s[j - 1..] == [s[j - 1]] + s[j..];
  }

  /** One more element of the input sorted is one more insertion. */
  lemma SortExtend<T, K>(a: seq<T>, i: nat, key: T -> K, le: (K, K) -> bool)
    requires i < |a|
    ensures Sort(a[..i + 1], key, le) + a[i + 1..] == Insert(Sort(a[..i], key, le), a[i], key, le) + a[i + 1..]
  {
    assert a[..i + 1][..i] == a[..i];
  }

  lemma ItemLinesStep(s: seq<CatalogueItem?>, objectText: CatalogueItem -> string, i: nat)
    requires i < |s|
    ensures s[i] == null ==> ItemLinesFrom(s, objectText, i) == ItemLinesFrom(s, objectText, i + 1)
    ensures s[i] != null && ItemText(s[i], objectText(s[i])).Err? ==>
      ItemLinesFrom(s, objectText, i) == Report([], Fail(ItemText(s[i], objectText(s[i])).error))
    ensures s[i] != null && ItemText(s[i], objectText(s[i])).Ok? ==>
      ItemLinesFrom(s, objectText, i) == Report([ItemText(s[i], objectText(s[i])).value] + ItemLinesFrom(s, objectText, i + 1).lines,
        ItemLinesFrom(s, objectText, i + 1).outcome)
  {
  }

  lemma OverdueStep(ls: seq<Loan?>, now: int, day: int -> string, i: nat)
    requires i < |ls|
    ensures ls[i] != null && ls[i].dueDate < now ==>
      OverdueFrom(ls, now, day, i) == [Overdue(ls[i].Text(day), DaysLate(ls[i].dueDate, now))] + OverdueFrom(ls, now, day, i + 1)
    ensures !(ls[i] != null && ls[i].dueDate < now) ==> OverdueFrom(ls, now, day, i) == OverdueFrom(ls, now, day, i + 1)
  {
  }

  /** One round of the `removeItem(key, n)` loop: a copy removed leaves n - 1
      rounds to go, anything else ends the loop with the step's shelf. */
  lemma RemoveCopiesStep(cur: Shelf, item: CatalogueItem, m: int)
    requires cur.Covers() && m > 0
    ensures var step := CopyStep(cur, item);
      step.removed == Ok(true) ==> RemoveCopies(cur, item, m) == RemoveCopies(step.after, item, m - 1)
    ensures var step := CopyStep(cur, item);
      step.removed != Ok(true) ==>
        (RemoveCopies(cur, item, m) == ItemRemoval(if step.removed.Err? then Fail(step.removed.error) else Pass, step.after))
  {
  }



}
