/** The value-level meaning of the `Library` operations: slot searches over the
    catalogue seen as a sequence of (possibly empty) slots, the effect of
    removing copies on the slots and the copy counts together, and the two
    reports. */
module LibrarySpec {
  import opened Wrappers
  import opened JavaText
  import opened Catalogue
  import opened Loans
  import opened StableSort

  /** `CATALOGUE_CAPACITY`, the length of both arrays. */
  const Capacity := 100

  /** The border line of both reports. */
  const Border := "===================="

  // ---------------------------------------------------------------------------
  // addItem

  /** The lowest index of an empty slot, or `|s|` when every slot is taken. */
  function FirstFree(s: seq<CatalogueItem?>): (r: nat)
    ensures r <= |s|
    ensures r < |s| ==> s[r] == null
    ensures forall i :: 0 <= i < r ==> s[i] != null
  {
    if s == [] then 0 else if s[0] == null then 0 else 1 + FirstFree(s[1..])
  }

  /** The non-empty slots, in slot order: what `getCatalogue()` returns. */
  function NonNull(s: seq<CatalogueItem?>): (r: seq<CatalogueItem>)
    ensures |r| <= |s|
  {
    if s == [] then []
    else NonNull(s[..|s| - 1]) + (if s[|s| - 1] != null then [s[|s| - 1]] else [])
  }

  /** `getCatalogue()` holds exactly the items that occupy some slot. */
  lemma {:induction false} NonNullMembers(s: seq<CatalogueItem?>, x: CatalogueItem)
    ensures x in NonNull(s) <==> x in s
  {
    if s != [] {
      NonNullMembers(s[..|s| - 1], x);
      assert s == s[..|s| - 1] + [s[|s| - 1]];
    }
  }

  /** An empty catalogue lists nothing. */
  lemma {:induction false} NonNullOfEmpty(s: seq<CatalogueItem?>)
    requires forall i :: 0 <= i < |s| ==> s[i] == null
    ensures NonNull(s) == []
  {
    if s != [] {
      NonNullOfEmpty(s[..|s| - 1]);
    }
  }

  /** Filling an empty slot lists one more item. */
  lemma {:induction false} NonNullGrows(s: seq<CatalogueItem?>, k: nat, x: CatalogueItem)
    requires k < |s| && s[k] == null
    ensures |NonNull(s[k := x])| == |NonNull(s)| + 1
  {
    var t := s[k := x];
    if k < |s| - 1 {
      assert t[..|t| - 1] == s[..|s| - 1][k := x];
      NonNullGrows(s[..|s| - 1], k, x);
    } else {
      assert t[..|t| - 1] == s[..|s| - 1];
    }
  }

  // ---------------------------------------------------------------------------
  // findItem

  /** The first slot from `i` on whose item has the key as title or ISBN; a
      lookup that reaches a Book without an ISBN (and another title) fails. */
  function FindFrom(s: seq<CatalogueItem?>, key: string, i: nat): (r: Result<Option<nat>>)
    requires i <= |s|
    decreases |s| - i
    ensures r.Ok? && r.value.Some? ==>
      i <= r.value.value < |s| && s[r.value.value] != null && MatchesKey(s[r.value.value], key) == Ok(true)
    ensures r.Ok? ==> forall j :: i <= j < (if r.value.Some? then r.value.value else |s|) ==>
      s[j] == null || MatchesKey(s[j], key) == Ok(false)
    ensures r.Err? ==> r.error == NullPointer
  {
    if i == |s| then Ok(None)
    else if s[i] != null && MatchesKey(s[i], key).Err? then Err(NullPointer)
    else if s[i] != null && MatchesKey(s[i], key) == Ok(true) then Ok(Some(i))
    else FindFrom(s, key, i + 1)
  }

  /** `findItem(key)`: the item in the first matching slot, or null. */
  function FindIn(s: seq<CatalogueItem?>, key: string): (r: Result<CatalogueItem?>)
    ensures r.Err? ==> r.error == NullPointer
    ensures r.Ok? && r.value != null ==> r.value in s && MatchesKey(r.value, key) == Ok(true)
  {
    match FindFrom(s, key, 0)
    case Err(e) => Err(e)
    case Ok(None) => Ok(null)
    case Ok(Some(k)) => Ok(s[k])
  }

  /** The lookup finds nothing exactly when no slot matches and none fails. */
  lemma {:induction false} FindNothingIff(s: seq<CatalogueItem?>, key: string, i: nat)
    requires i <= |s|
    ensures FindFrom(s, key, i) == Ok(None) <==>
      forall j :: i <= j < |s| ==> s[j] == null || MatchesKey(s[j], key) == Ok(false)
    decreases |s| - i
  {
    if i < |s| {
      FindNothingIff(s, key, i + 1);
    }
  }

  /** Every occupied slot in `[i, j)` is tested and does not match the key. */
  ghost predicate NoMatchBetween(s: seq<CatalogueItem?>, key: string, i: nat, j: nat)
    requires j <= |s|
  {
    forall l :: i <= l < j ==> s[l] == null || MatchesKey(s[l], key) == Ok(false)
  }

  /** The lookup crashes exactly when it reaches a failing slot: one whose test
      fails, with every occupied slot before it from `i` on a non-match. */
  lemma {:induction false} FindCrashIff(s: seq<CatalogueItem?>, key: string, i: nat)
    requires i <= |s|
    ensures FindFrom(s, key, i).Err? <==>
      exists j :: i <= j < |s| && s[j] != null && MatchesKey(s[j], key).Err? && NoMatchBetween(s, key, i, j)
    decreases |s| - i
  {
    if i < |s| {
      FindCrashIff(s, key, i + 1);
      if s[i] != null && MatchesKey(s[i], key).Err? {
        assert NoMatchBetween(s, key, i, i);
      } else if s[i] != null && MatchesKey(s[i], key) == Ok(true) {
        forall j | i <= j < |s| && NoMatchBetween(s, key, i, j) ensures j == i {
        }
      } else {
        forall j | i + 1 <= j <= |s| ensures NoMatchBetween(s, key, i, j) <==> NoMatchBetween(s, key, i + 1, j) {
        }
      }
    }
  }

  /** An item put into the first empty slot of a catalogue where nothing
      matches the key is what the lookup then returns. */
  lemma {:induction false} FindAfterPlace(s: seq<CatalogueItem?>, key: string, x: CatalogueItem, i: nat)
    requires FirstFree(s) < |s| && i <= FirstFree(s)
    requires FindFrom(s, key, i) == Ok(None) && MatchesKey(x, key) == Ok(true)
    ensures FindFrom(s[FirstFree(s) := x], key, i) == Ok(Some(FirstFree(s)))
    decreases |s| - i
  {
    if i < FirstFree(s) {
      FindAfterPlace(s, key, x, i + 1);
    }
  }

  // ---------------------------------------------------------------------------
  // removeCopy

  /** The first slot from `i` on whose item `equals` the given one; a failing
      `equals` ends the scan. */
  function FirstEqualFrom(s: seq<CatalogueItem?>, item: CatalogueItem, i: nat): (r: Result<Option<nat>>)
    requires i <= |s|
    decreases |s| - i
    ensures r.Ok? && r.value.Some? ==> i <= r.value.value < |s| && s[r.value.value] != null
    ensures r.Err? ==> r.error.ClassCast? || r.error.NullPointer? || r.error.IndexOutOfBounds?
  {
    if i == |s| then Ok(None)
    else if s[i] != null && Equals(s[i], item).Err? then Err(Equals(s[i], item).error)
    else if s[i] != null && Equals(s[i], item) == Ok(true) then Ok(Some(i))
    else FirstEqualFrom(s, item, i + 1)
  }

  /** Every occupied slot in `[i, j)` is compared and is not equal to the item. */
  ghost predicate NoEqualBetween(s: seq<CatalogueItem?>, item: CatalogueItem, i: nat, j: nat)
    requires j <= |s|
  {
    forall l :: i <= l < j ==> s[l] == null || Equals(s[l], item) == Ok(false)
  }

  /** The scan of `removeCopy` crashes exactly when it reaches a slot whose
      `equals` fails, with every occupied slot before it from `i` on unequal. */
  lemma {:induction false} FirstEqualCrashIff(s: seq<CatalogueItem?>, item: CatalogueItem, i: nat)
    requires i <= |s|
    ensures FirstEqualFrom(s, item, i).Err? <==>
      exists j :: i <= j < |s| && s[j] != null && Equals(s[j], item).Err? && NoEqualBetween(s, item, i, j)
    decreases |s| - i
  {
    if i < |s| {
      FirstEqualCrashIff(s, item, i + 1);
      if s[i] != null && Equals(s[i], item).Err? {
        assert NoEqualBetween(s, item, i, i);
      } else if s[i] != null && Equals(s[i], item) == Ok(true) {
        forall j | i <= j < |s| && NoEqualBetween(s, item, i, j) ensures j == i {
        }
      } else {
        forall j | i + 1 <= j <= |s| ensures NoEqualBetween(s, item, i, j) <==> NoEqualBetween(s, item, i + 1, j) {
        }
      }
    }
  }

  /** The slot the scan stops at is equal to the item, and every occupied slot
      it passes over is not. */
  lemma {:induction false} FirstEqualSkips(s: seq<CatalogueItem?>, item: CatalogueItem, i: nat)
    requires i <= |s|
    ensures var r := FirstEqualFrom(s, item, i);
      r.Ok? && r.value.Some? ==> Equals(s[r.value.value], item) == Ok(true)
    ensures var r := FirstEqualFrom(s, item, i);
      r.Ok? ==> forall j :: i <= j < (if r.value.Some? then r.value.value else |s|) ==>
        s[j] == null || Equals(s[j], item) == Ok(false)
    decreases |s| - i
  {
    if i < |s| {
      FirstEqualSkips(s, item, i + 1);
    }
  }

  /** An item still in a slot is always hit (or the scan fails before it), so
      `removeCopy` never reports "no copies" for an item `findItem` found. */
  lemma {:induction false} PresentItemIsHit(s: seq<CatalogueItem?>, item: CatalogueItem, k: nat, i: nat)
    requires i <= k < |s| && s[k] == item
    ensures FirstEqualFrom(s, item, i) != Ok(None)
    ensures FirstEqualFrom(s, item, i).Ok? ==> FirstEqualFrom(s, item, i).value.value <= k
    decreases |s| - i
  {
    if i < k {
      PresentItemIsHit(s, item, k, i + 1);
    }
  }

  /** A Book with the same title and author in an earlier slot is hit instead
      of the very object asked for. */
  lemma EarlierEqualBookIsHit(s: seq<CatalogueItem?>, b1: CatalogueItem, b2: CatalogueItem)
    requires b1 != b2 && b1.kind.BookKind? && b2.kind.BookKind?
    requires b1.title == b2.title && b1.kind.author == b2.kind.author && b1.kind.author.Some?
    requires |Split(b1.kind.author.value.firstName)| > 0
    requires |s| >= 2 && s[0] == b1 && s[1] == b2
    ensures FirstEqualFrom(s, b2, 0) == Ok(Some(0))
  {
    EqualsMatchesCopies(b1, b2);
  }

  /** The catalogue slots together with the copy count of every item they hold
      (the counts live in the shared item objects). */
  datatype Shelf = Shelf(slots: seq<CatalogueItem?>, copies: map<CatalogueItem, Int32>)
  {
    predicate Covers()
    {
      forall i :: 0 <= i < |slots| && slots[i] != null ==> slots[i] in copies
    }
  }

  datatype CopyRemoval = CopyRemoval(removed: Result<bool>, after: Shelf)

  /** `removeCopy(item)`: at the first equal slot, one copy less when it holds
      more than one, else the slot is emptied; nothing when no slot is equal;
      a failing `equals` changes nothing. */
  function CopyStep(sh: Shelf, item: CatalogueItem): (r: CopyRemoval)
    requires sh.Covers()
    ensures r.after.Covers() && |r.after.slots| == |sh.slots| && r.after.copies.Keys == sh.copies.Keys
    ensures r.removed != Ok(true) ==> r.after == sh
    ensures r.after.slots != sh.slots ==> r.after.copies == sh.copies
  {
    match FirstEqualFrom(sh.slots, item, 0)
    case Err(e) => CopyRemoval(Err(e), sh)
    case Ok(None) => CopyRemoval(Ok(false), sh)
    case Ok(Some(i)) =>
      var x: CatalogueItem := sh.slots[i];
      if sh.copies[x] > 1 then CopyRemoval(Ok(true), sh.(copies := sh.copies[x := sh.copies[x] - 1]))
      else CopyRemoval(Ok(true), sh.(slots := sh.slots[i := null]))
  }

  datatype ItemRemoval = ItemRemoval(outcome: Outcome, after: Shelf)

  /** The loop of `removeItem(key, n)` once the item is found: up to `n` copy
      removals, stopping quietly at the first that finds nothing, and
      propagating a failure. */
  function RemoveCopies(sh: Shelf, item: CatalogueItem, n: int): (r: ItemRemoval)
    requires sh.Covers()
    ensures r.after.Covers()
    decreases n
  {
    if n <= 0 then ItemRemoval(Pass, sh)
    else
      var step := CopyStep(sh, item);
      if step.removed.Err? then ItemRemoval(Fail(step.removed.error), step.after)
      else if !step.removed.value then ItemRemoval(Pass, step.after)
      else RemoveCopies(step.after, item, n - 1)
  }

  /** `removeItem(key)`. */
  function RemoveOne(sh: Shelf, key: string): (r: ItemRemoval)
    requires sh.Covers()
    ensures r.after.Covers()
    ensures r.outcome.Pass? <==> r.after != sh
    ensures r.outcome.Pass? ==> FindIn(sh.slots, key).Ok? && FindIn(sh.slots, key).value != null
  {
    match FindIn(sh.slots, key)
    case Err(e) => ItemRemoval(Fail(e), sh)
    case Ok(x) =>
      if x == null then ItemRemoval(Fail(ItemNotFound), sh)
      else
        var step := CopyStep(sh, x);
        if step.removed.Err? then ItemRemoval(Fail(step.removed.error), step.after)
        else if !step.removed.value then ItemRemoval(Fail(ItemNotFound), step.after)
        else ItemRemoval(Pass, step.after)
  }

  /** `removeItem(key, n)`. */
  function RemoveMany(sh: Shelf, key: string, n: int): (r: ItemRemoval)
    requires sh.Covers()
    ensures r.after.Covers()
    ensures r.outcome.Pass? ==> FindIn(sh.slots, key).Ok? && FindIn(sh.slots, key).value != null
    ensures FindIn(sh.slots, key) == Ok(null) ==> r == ItemRemoval(Fail(ItemNotFound), sh)
    ensures n <= 0 && FindIn(sh.slots, key).Ok? && FindIn(sh.slots, key).value != null ==> r == ItemRemoval(Pass, sh)
  {
    match FindIn(sh.slots, key)
    case Err(e) => ItemRemoval(Fail(e), sh)
    case Ok(x) => if x == null then ItemRemoval(Fail(ItemNotFound), sh) else RemoveCopies(sh, x, n)
  }

  /** `b` holds what `a` holds or less: a slot only ever empties, and no copy
      count grows. */
  predicate NoMoreThan(b: Shelf, a: Shelf)
  {
    && |b.slots| == |a.slots| && b.copies.Keys == a.copies.Keys
    && (forall i :: 0 <= i < |b.slots| ==> b.slots[i] == a.slots[i] || b.slots[i] == null)
    && (forall x :: x in b.copies ==> b.copies[x] <= a.copies[x])
  }

  lemma CopyStepShrinks(sh: Shelf, item: CatalogueItem)
    requires sh.Covers()
    ensures NoMoreThan(CopyStep(sh, item).after, sh)
  {
  }

  /** Removing copies never adds anything back. */
  lemma {:induction false} RemoveCopiesShrinks(sh: Shelf, item: CatalogueItem, n: int)
    requires sh.Covers()
    ensures NoMoreThan(RemoveCopies(sh, item, n).after, sh)
    decreases n
  {
    if n > 0 {
      var step := CopyStep(sh, item);
      CopyStepShrinks(sh, item);
      if step.removed == Ok(true) {
        RemoveCopiesShrinks(step.after, item, n - 1);
      }
    }
  }

  /** Neither `removeItem` overload adds anything back: every item keeps its
      count entry, slots only empty and no count grows. */
  lemma RemoveItemShrinks(sh: Shelf, key: string, n: int)
    requires sh.Covers()
    ensures NoMoreThan(RemoveOne(sh, key).after, sh)
    ensures NoMoreThan(RemoveMany(sh, key, n).after, sh)
  {
    match FindIn(sh.slots, key)
    case Err(_) =>
    case Ok(x) =>
      if x != null {
        CopyStepShrinks(sh, x);
        RemoveCopiesShrinks(sh, x, n);
      }
  }

  /** Both `removeItem` overloads fail with "not found" and change nothing when
      no slot matches the key. */
  lemma RemoveUnknownChangesNothing(sh: Shelf, key: string, n: int)
    requires sh.Covers()
    requires forall j :: 0 <= j < |sh.slots| ==> sh.slots[j] == null || MatchesKey(sh.slots[j], key) == Ok(false)
    ensures RemoveOne(sh, key) == ItemRemoval(Fail(ItemNotFound), sh)
    ensures RemoveMany(sh, key, n) == ItemRemoval(Fail(ItemNotFound), sh)
  {
    FindNothingIff(sh.slots, key, 0);
  }

  /** `removeItem(key)` never takes the "no copies" exit: the item found is
      itself in a slot. */
  lemma RemoveOneNeverNoCopies(sh: Shelf, key: string)
    requires sh.Covers()
    requires FindIn(sh.slots, key).Ok? && FindIn(sh.slots, key).value != null
    ensures RemoveOne(sh, key).outcome != Fail(ItemNotFound)
  {
    var k := FindFrom(sh.slots, key, 0).value.value;
    PresentItemIsHit(sh.slots, sh.slots[k], k, 0);
  }

  // ---------------------------------------------------------------------------
  // printCatalogue

  /** The sort key of a slot: its title, or nothing for an empty slot. */
  function SlotKey(x: CatalogueItem?): Option<string>
  {
    if x == null then None else Some(x.title)
  }

  /** `Comparator.nullsLast(Comparator.comparing(CatalogueItem::getTitle))` as
      "not after": titles in `compareTo` order, empty slots after all items. */
  predicate NullsLast(a: Option<string>, b: Option<string>)
  {
    b.None? || (a.Some? && LexLe(a.value, b.value))
  }

  lemma NullsLastIsTotalPreorder()
    ensures TotalPreorder(NullsLast)
  {
    forall a: Option<string>, b: Option<string> ensures NullsLast(a, b) || NullsLast(b, a) {
      if a.Some? && b.Some? {
        LexLeTotal(a.value, b.value);
      }
    }
    forall a: Option<string>, b: Option<string>, c: Option<string> | NullsLast(a, b) && NullsLast(b, c)
      ensures NullsLast(a, c)
    {
      if a.Some? && b.Some? && c.Some? {
        LexLeTransitive(a.value, b.value, c.value);
      }
    }
  }

  /** The catalogue after `printCatalogue`: a permutation of the slots, with
      every item before every empty slot, titles in ascending order, and items
      of equal title in their previous order. */
  lemma SortedCatalogue(s: seq<CatalogueItem?>)
    ensures multiset(Sort(s, SlotKey, NullsLast)) == multiset(s)
    ensures var t := Sort(s, SlotKey, NullsLast);
      forall i, j :: 0 <= i < j < |t| && t[i] == null ==> t[j] == null
    ensures var t := Sort(s, SlotKey, NullsLast);
      forall i, j :: 0 <= i < j < |t| && t[i] != null && t[j] != null ==> LexLe(t[i].title, t[j].title)
    ensures forall title :: KeyFilter(Sort(s, SlotKey, NullsLast), SlotKey, Some(title)) == KeyFilter(s, SlotKey, Some(title))
  {
    NullsLastIsTotalPreorder();
    SortPermutes(s, SlotKey, NullsLast);
    SortSorted(s, SlotKey, NullsLast);
    var t := Sort(s, SlotKey, NullsLast);
    forall i, j | 0 <= i < j < |t| && t[i] == null ensures t[j] == null {
      assert NullsLast(SlotKey(t[i]), SlotKey(t[j]));
    }
    forall i, j | 0 <= i < j < |t| && t[i] != null && t[j] != null ensures LexLe(t[i].title, t[j].title) {
      assert NullsLast(SlotKey(t[i]), SlotKey(t[j]));
    }
    forall title ensures KeyFilter(t, SlotKey, Some(title)) == KeyFilter(s, SlotKey, Some(title)) {
      SortStable(s, SlotKey, NullsLast, Some(title));
    }
  }

  /** Sorting a catalogue that is already in order changes nothing, so a second
      `printCatalogue` leaves the slots as the first one did. */
  lemma {:induction false} SortOfSorted<T, K(!new)>(s: seq<T>, key: T -> K, le: (K, K) -> bool)
    requires Sorted(s, key, le)
    ensures Sort(s, key, le) == s
  {
    if s != [] {
      var init := s[..|s| - 1];
      assert Sorted(init, key, le);
      SortOfSorted(init, key, le);
      assert s == init + [s[|s| - 1]];
      if |init| > 0 {
        assert le(key(init[|init| - 1]), key(s[|s| - 1]));
      }
    }
  }

  /** The result of both reports: the lines printed and how printing ended. */
  datatype Report = Report(lines: seq<string>, outcome: Outcome)

  /** The item lines from slot `i` on; a failing `toString` ends them. */
  function ItemLinesFrom(s: seq<CatalogueItem?>, objectText: CatalogueItem -> string, i: nat): (r: Report)
    requires i <= |s|
    reads s
    decreases |s| - i
    ensures |r.lines| <= |s| - i
  {
    if i == |s| then Report([], Pass)
    else if s[i] == null then ItemLinesFrom(s, objectText, i + 1)
    else match ItemText(s[i], objectText(s[i]))
      case Err(e) => Report([], Fail(e))
      case Ok(text) =>
        var rest := ItemLinesFrom(s, objectText, i + 1);
        Report([text] + rest.lines, rest.outcome)
  }

  /** Slots that are all empty print nothing. */
  lemma {:induction false} ItemLinesOfEmpty(s: seq<CatalogueItem?>, objectText: CatalogueItem -> string, i: nat)
    requires i <= |s| && forall j :: i <= j < |s| ==> s[j] == null
    ensures ItemLinesFrom(s, objectText, i) == Report([], Pass)
    decreases |s| - i
  {
    if i < |s| {
      ItemLinesOfEmpty(s, objectText, i + 1);
    }
  }

  /** What `printCatalogue` prints for the (already sorted) slots `s`. */
  function CatalogueReport(welcome: string, s: seq<CatalogueItem?>, objectText: CatalogueItem -> string): (r: Report)
    reads s
    ensures |r.lines| >= 4 && r.lines[..4] == [Border, welcome, "Catalogue", Border]
    ensures r.outcome.Pass? ==> |r.lines| >= 5 && r.lines[|r.lines| - 1] == Border
  {
    var items := ItemLinesFrom(s, objectText, 0);
    var head := [Border, welcome, "Catalogue", Border];
    if items.outcome.Pass? then Report(head + items.lines + [Border], Pass)
    else Report(head + items.lines, items.outcome)
  }

  // ---------------------------------------------------------------------------
  // printOverdue

  /** An overdue loan as the report uses it: its text and whole days late. */
  datatype Overdue = Overdue(text: string, daysLate: int)

  /** `ChronoUnit.DAYS.between(due, now)` for a due date in the past: the whole
      days elapsed (division truncating toward zero, here on a positive
      difference). */
  function DaysLate(due: int, now: int): (r: nat)
    requires due < now
    ensures r * Day <= now - due < (r + 1) * Day
  {
    (now - due) / Day
  }

  /** The overdue loans from slot `i` on, in slot order. */
  function OverdueFrom(ls: seq<Loan?>, now: int, day: int -> string, i: nat): (r: seq<Overdue>)
    requires i <= |ls|
    reads ls
    decreases |ls| - i
    ensures |r| <= |ls| - i
  {
    if i == |ls| then []
    else if ls[i] != null && ls[i].dueDate < now then
      [Overdue(ls[i].Text(day), DaysLate(ls[i].dueDate, now))] + OverdueFrom(ls, now, day, i + 1)
    else OverdueFrom(ls, now, day, i + 1)
  }

  /** The entry of the loan in slot `k` of the report. */
  function EntryOf(ls: seq<Loan?>, now: int, day: int -> string, k: nat): Overdue
    requires k < |ls| && ls[k] != null && ls[k].dueDate < now
    reads ls
  {
    Overdue(ls[k].Text(day), DaysLate(ls[k].dueDate, now))
  }

  /** The report lists exactly the loans due before `now`: every entry is the
      entry of some such loan, none is late by a negative number of days, and
      every such loan has its entry. */
  lemma {:induction false} OverdueFromExact(ls: seq<Loan?>, now: int, day: int -> string, i: nat)
    requires i <= |ls|
    ensures forall e :: e in OverdueFrom(ls, now, day, i) ==> e.daysLate >= 0
    ensures forall e :: e in OverdueFrom(ls, now, day, i) ==>
      exists k :: i <= k < |ls| && ls[k] != null && ls[k].dueDate < now && e == EntryOf(ls, now, day, k)
    ensures forall k :: i <= k < |ls| && ls[k] != null && ls[k].dueDate < now ==>
      EntryOf(ls, now, day, k) in OverdueFrom(ls, now, day, i)
    decreases |ls| - i
  {
    if i < |ls| {
      OverdueFromExact(ls, now, day, i + 1);
    }
  }

  /** No loans, nothing overdue. */
  lemma {:induction false} OverdueOfEmpty(ls: seq<Loan?>, now: int, day: int -> string, i: nat)
    requires i <= |ls| && forall k :: i <= k < |ls| ==> ls[k] == null
    ensures OverdueFrom(ls, now, day, i) == []
    decreases |ls| - i
  {
    if i < |ls| {
      OverdueOfEmpty(ls, now, day, i + 1);
    }
  }

  function DaysLateOf(e: Overdue): int { e.daysLate }

  /** `Long.compare(daysOverdue2, daysOverdue1)` as "not after": more days late
      comes first. */
  predicate LateFirst(a: int, b: int) { a >= b }

  /** The overdue loans in report order. */
  function OverdueSorted(ls: seq<Loan?>, now: int, day: int -> string): seq<Overdue>
    reads ls
  {
    Sort(OverdueFrom(ls, now, day, 0), DaysLateOf, LateFirst)
  }

  /** The report lists each overdue loan, most days late first, loans equally
      late in slot order. */
  lemma OverdueOrder(ls: seq<Loan?>, now: int, day: int -> string)
    ensures multiset(OverdueSorted(ls, now, day)) == multiset(OverdueFrom(ls, now, day, 0))
    ensures var t := OverdueSorted(ls, now, day);
      forall i, j :: 0 <= i < j < |t| ==> t[i].daysLate >= t[j].daysLate
    ensures forall d :: (KeyFilter(OverdueSorted(ls, now, day), DaysLateOf, d)
      == KeyFilter(OverdueFrom(ls, now, day, 0), DaysLateOf, d))
  {
    var s := OverdueFrom(ls, now, day, 0);
    assert TotalPreorder(LateFirst);
    SortPermutes(s, DaysLateOf, LateFirst);
    SortSorted(s, DaysLateOf, LateFirst);
    var t := Sort(s, DaysLateOf, LateFirst);
    forall i, j | 0 <= i < j < |t| ensures t[i].daysLate >= t[j].daysLate {
      assert LateFirst(DaysLateOf(t[i]), DaysLateOf(t[j]));
    }
    forall d ensures KeyFilter(t, DaysLateOf, d) == KeyFilter(s, DaysLateOf, d) {
      SortStable(s, DaysLateOf, LateFirst, d);
    }
  }

  /** Each overdue loan's text followed by a border. */
  function OverdueLines(es: seq<Overdue>): (r: seq<string>)
    ensures |r| == 2 * |es|
  {
    if es == [] then [] else [es[0].text, Border] + OverdueLines(es[1..])
  }

  /** Line 2k is the k-th loan's text and line 2k+1 a border. */
  lemma {:induction false} OverdueLinesShape(es: seq<Overdue>, k: nat)
    requires k < |es|
    ensures OverdueLines(es)[2 * k] == es[k].text && OverdueLines(es)[2 * k + 1] == Border
  {
    if k > 0 {
      OverdueLinesShape(es[1..], k - 1);
    }
  }

  /** What `printOverdue` prints at time `now`. */
  function OverdueReport(ls: seq<Loan?>, now: int, day: int -> string): (r: seq<string>)
    reads ls
    ensures |r| >= 4 && r[..3] == [Border, "Loans Overdue", Border] && r[|r| - 1] == Border
  {
    var es := OverdueSorted(ls, now, day);
    if es == [] then [Border, "Loans Overdue", Border, Border]
    else
      OverdueLinesShape(es, |es| - 1);
      [Border, "Loans Overdue", Border] + OverdueLines(es)
  }

  /** With no loan recorded the report is the three header lines and a border. */
  lemma OverdueReportOfNoLoans(ls: seq<Loan?>, now: int, day: int -> string)
    requires forall k :: 0 <= k < |ls| ==> ls[k] == null
    ensures OverdueReport(ls, now, day) == [Border, "Loans Overdue", Border, Border]
  {
    OverdueOfEmpty(ls, now, day, 0);
  }
}
