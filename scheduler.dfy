/** The weekly pocket-money job: every child with a birth date is credited
    50 cents per completed year of age, with one "Pocket Money" transaction
    each, in one batch. The reference date is a parameter. */
module Scheduler {
  import opened Common
  import opened UserModels
  import opened PocketMoney

  // ---------------------------------------------------------------------
  // Age

  /** `(a.month, a.day) < (b.month, b.day)` as Python compares tuples. */
  predicate MonthDayBefore(a: Date, b: Date)
  {
    a.month < b.month || (a.month == b.month && a.day < b.day)
  }

  /** Calendar order on dates: `a` is on or before `b`. */
  predicate OnOrBefore(a: Date, b: Date)
  {
    a.year < b.year || (a.year == b.year && !MonthDayBefore(b, a))
  }

  /** The `n`-th anniversary of a birth date. */
  function Anniversary(birth: Date, n: int): Date
  {
    Date(birth.year + n, birth.month, birth.day)
  }

  /** `calculate_age`: 0 without a birth date; otherwise the number of
      completed years, i.e. the latest anniversary that is not after the
      reference date. */
  function CalculateAge(birthDate: Option<Date>, reference: Date): int
  {
    match birthDate
    case None => 0
    case Some(b) => reference.year - b.year - (if MonthDayBefore(reference, b) then 1 else 0)
  }

  /** The age is 0 without a birth date; otherwise its anniversary has been
      reached by the reference date and the next one has not. */
  lemma AgeIsLatestAnniversary(birthDate: Option<Date>, reference: Date)
    ensures birthDate.None? ==> CalculateAge(birthDate, reference) == 0
    ensures birthDate.Some? ==>
      && OnOrBefore(Anniversary(birthDate.value, CalculateAge(birthDate, reference)), reference)
      && !OnOrBefore(Anniversary(birthDate.value, CalculateAge(birthDate, reference) + 1), reference)
  {
  }

  /** Anniversaries move forward with the year count. */
  lemma AnniversaryOrder(birth: Date, m: int, n: int, reference: Date)
    requires m <= n
    requires OnOrBefore(Anniversary(birth, n), reference)
    ensures OnOrBefore(Anniversary(birth, m), reference)
  {
  }

  /** The completed-years characterisation pins the age down: any `n`
      whose anniversary has passed while the next one has not is the age. */
  lemma {:induction false} AgeIsCompletedYears(birth: Date, reference: Date, n: int)
    requires OnOrBefore(Anniversary(birth, n), reference)
    requires !OnOrBefore(Anniversary(birth, n + 1), reference)
    ensures CalculateAge(Some(birth), reference) == n
  {
    var age := CalculateAge(Some(birth), reference);
    AgeIsLatestAnniversary(Some(birth), reference);
    if age < n {
      AnniversaryOrder(birth, age + 1, n, reference);
    } else if age > n {
      AnniversaryOrder(birth, n + 1, age, reference);
    }
  }

  /** The age goes up on the anniversary itself, not the day after. */
  lemma AgeOnAnniversary(birth: Date, n: int)
    ensures CalculateAge(Some(birth), Anniversary(birth, n)) == n
  {
  }

  /** For a fixed birth date the age never decreases as the reference
      date moves forward. */
  lemma {:induction false} AgeMonotone(birth: Date, r1: Date, r2: Date)
    requires OnOrBefore(r1, r2)
    ensures CalculateAge(Some(birth), r1) <= CalculateAge(Some(birth), r2)
  {
    var a1, a2 := CalculateAge(Some(birth), r1), CalculateAge(Some(birth), r2);
    AgeIsLatestAnniversary(Some(birth), r1);
    AgeIsLatestAnniversary(Some(birth), r2);
    if a2 < a1 {
      AnniversaryOrder(birth, a2 + 1, a1, r1);
    }
  }

  /** The two cases of the unit test: born 2015-11-01, ten years old on
      2026-02-01 (500 cents) and eleven on 2026-11-02 (550 cents). */
  lemma AgeExamples()
    ensures CalculateAge(Some(Date(2015, 11, 1)), Date(2026, 2, 1)) == 10
    ensures CalculateAge(Some(Date(2015, 11, 1)), Date(2026, 2, 1)) * RateCents == 500
    ensures CalculateAge(Some(Date(2015, 11, 1)), Date(2026, 11, 2)) == 11
    ensures CalculateAge(Some(Date(2015, 11, 1)), Date(2026, 11, 2)) * RateCents == 550
    ensures CalculateAge(Some(Date(2015, 11, 1)), Date(2026, 11, 1)) == 11
    ensures CalculateAge(Some(Date(2015, 11, 1)), Date(2026, 10, 31)) == 10
  {
  }

  // ---------------------------------------------------------------------
  // Decimal rendering of the age in the description

  function Digit(d: nat): char
    requires d < 10
  {
    (48 + d) as char
  }

  /** `str(n)` for a natural number. */
  function DecimalString(n: nat): (s: string)
    ensures |s| >= 1
    ensures forall k :: 0 <= k < |s| ==> '0' <= s[k] <= '9'
    ensures s[0] == '0' ==> n == 0
  {
    if n < 10 then [Digit(n)] else DecimalString(n / 10) + [Digit(n % 10)]
  }

  /** Reading a string of digits back as a number. */
  function DecimalValue(s: string): nat
    requires forall k :: 0 <= k < |s| ==> '0' <= s[k] <= '9'
  {
    if s == [] then 0 else 10 * DecimalValue(s[..|s| - 1]) + (s[|s| - 1] as int - 48)
  }

  /** The rendered age reads back as the age. */
  lemma {:induction false} DecimalRoundTrip(n: nat)
    ensures DecimalValue(DecimalString(n)) == n
  {
    if n >= 10 {
      DecimalRoundTrip(n / 10);
      var s := DecimalString(n);
      assert s[..|s| - 1] == DecimalString(n / 10);
    }
  }

  function PayoutDescription(age: nat): string
  {
    "Weekly Pocket Money (Age " + DecimalString(age) + ")"
  }

  // ---------------------------------------------------------------------
  // The payout as a function of the children table

  /** 0.5 currency units per year of age, in cents. */
  const RateCents := 50

  /** The category of every row the run books. */
  const PayoutCategory := "Pocket Money"

  /** `age * 0.5`, in cents; children without a birth date get nothing. */
  function PayoutCents(c: Child, today: Date): int
  {
    if c.birthDate.None? then 0 else CalculateAge(c.birthDate, today) * RateCents
  }

  /** A child after the run. */
  function Credited(c: Child, today: Date): Child
  {
    var p := PayoutCents(c, today);
    if p > 0 then c.(balance := c.balance + p) else c
  }

  /** The run credits half a currency unit per completed year and touches
      nothing but the balance; a child without a birth date, or younger
      than one, is left as is. */
  lemma CreditedByAge(c: Child, today: Date)
    ensures c.birthDate.None? ==> Credited(c, today) == c
    ensures CalculateAge(c.birthDate, today) <= 0 ==> Credited(c, today) == c
    ensures c.birthDate.Some? && CalculateAge(c.birthDate, today) > 0 ==>
      Credited(c, today) == c.(balance := c.balance + CalculateAge(c.birthDate, today) * 50)
  {
  }

  /** The transaction the run books for a credited child. */
  function PayoutEntry(c: Child, today: Date, id: nat): Transaction
    requires PayoutCents(c, today) > 0
  {
    Transaction(id, c.id, PayoutCents(c, today),
                PayoutDescription(CalculateAge(c.birthDate, today)), PayoutCategory)
  }

  /** The booked entry is a positive "Pocket Money" credit of exactly the
      balance increase, described with the age. */
  lemma PayoutEntryShape(c: Child, today: Date, id: nat)
    requires PayoutCents(c, today) > 0
    ensures PayoutEntry(c, today, id).childId == c.id && PayoutEntry(c, today, id).id == id
    ensures PayoutEntry(c, today, id).amount == Credited(c, today).balance - c.balance
    ensures PayoutEntry(c, today, id).amount > 0
    ensures PayoutEntry(c, today, id).category == "Pocket Money"
    ensures PayoutEntry(c, today, id).description
      == "Weekly Pocket Money (Age " + DecimalString(CalculateAge(c.birthDate, today)) + ")"
  {
  }

  /** The children table after the run. */
  function PaidChildren(cs: seq<Child>, today: Date): (r: seq<Child>)
    ensures |r| == |cs|
    ensures forall i :: 0 <= i < |cs| ==> r[i] == Credited(cs[i], today)
  {
    seq(|cs|, i requires 0 <= i < |cs| => Credited(cs[i], today))
  }

  /** The transactions the run appends, numbered from `firstId`, in table
      order of the children they credit. */
  function PayoutEntries(cs: seq<Child>, today: Date, firstId: nat): seq<Transaction>
  {
    if cs == [] then []
    else
      var init, last := cs[..|cs| - 1], cs[|cs| - 1];
      var before := PayoutEntries(init, today, firstId);
      if PayoutCents(last, today) > 0
      then before + [PayoutEntry(last, today, firstId + |before|)]
      else before
  }

  // ---------------------------------------------------------------------
  // The job itself

  /** Appending a child to the visited prefix appends its entry, if any. */
  lemma PayoutEntriesSnoc(cs: seq<Child>, c: Child, today: Date, firstId: nat)
    ensures PayoutCents(c, today) > 0 ==>
      PayoutEntries(cs + [c], today, firstId)
        == PayoutEntries(cs, today, firstId) + [PayoutEntry(c, today, firstId + |PayoutEntries(cs, today, firstId)|)]
    ensures PayoutCents(c, today) <= 0 ==>
      PayoutEntries(cs + [c], today, firstId) == PayoutEntries(cs, today, firstId)
  {
    assert (cs + [c])[..|cs|] == cs;
  }

  /** Crediting the next child of the pass turns the part-paid table for
      `done` into the one for `done + [c]`. */
  lemma PaidSnoc(done: seq<Child>, c: Child, rest: seq<Child>, today: Date)
    ensures (PaidChildren(done, today) + ([c] + rest))[|done|] == c
    ensures (PaidChildren(done, today) + ([c] + rest))[|done| := Credited(c, today)]
         == PaidChildren(done + [c], today) + rest
  {
    var a := (PaidChildren(done, today) + ([c] + rest))[|done| := Credited(c, today)];
    var b := PaidChildren(done + [c], today) + rest;
    forall k | 0 <= k < |a| ensures a[k] == b[k] {
      if k < |done| {
        assert (done + [c])[k] == done[k];
      }
    }
  }

  /** One iteration of the pass, in the loop's own terms: crediting the
      next child, or leaving it, turns the state for `done` into the state
      for `done + [c]`. */
  lemma PayoutStep(done: seq<Child>, c: Child, rest: seq<Child>, today: Date, firstId: nat)
    ensures PayoutCents(c, today) > 0 ==>
      && (PaidChildren(done, today) + ([c] + rest))[|done| := c.(balance := c.balance + PayoutCents(c, today))]
         == PaidChildren(done + [c], today) + rest
      && PayoutEntries(done + [c], today, firstId)
         == PayoutEntries(done, today, firstId)
            + [Transaction(firstId + |PayoutEntries(done, today, firstId)|, c.id, PayoutCents(c, today),
                           PayoutDescription(CalculateAge(c.birthDate, today)), PayoutCategory)]
    ensures PayoutCents(c, today) <= 0 ==>
      && PaidChildren(done, today) + ([c] + rest) == PaidChildren(done + [c], today) + rest
      && PayoutEntries(done + [c], today, firstId) == PayoutEntries(done, today, firstId)
  {
    PaidSnoc(done, c, rest, today);
    PayoutEntriesSnoc(done, c, today, firstId);
    if PayoutCents(c, today) <= 0 {
      var s := PaidChildren(done, today) + ([c] + rest);
      assert s[|done| := c] == s;
    }
  }

  /** Every payout entry is owned by a child of the table. */
  lemma {:induction false} PayoutEntriesOwners(cs: seq<Child>, today: Date, firstId: nat)
    ensures forall k :: 0 <= k < |PayoutEntries(cs, today, firstId)| ==>
      PayoutEntries(cs, today, firstId)[k].childId in ChildIds(cs)
  {
    if cs != [] {
      var init, last := cs[..|cs| - 1], cs[|cs| - 1];
      PayoutEntriesOwners(init, today, firstId);
      var before := PayoutEntries(init, today, firstId);
      if PayoutCents(last, today) > 0 {
        var es := before + [PayoutEntry(last, today, firstId + |before|)];
        forall k | 0 <= k < |es| ensures es[k].childId in ChildIds(cs) {
          if k < |before| {
            assert es[k] == before[k];
          }
        }
      }
    }
  }

  /** The run changes balances only: ids and names stay row by row. */
  lemma PaidChildrenKeys(cs: seq<Child>, today: Date)
    ensures forall k :: 0 <= k < |cs| ==>
      PaidChildren(cs, today)[k].id == cs[k].id && PaidChildren(cs, today)[k].name == cs[k].name
    ensures ChildIds(PaidChildren(cs, today)) == ChildIds(cs)
  {
    ChildIdsSameKeys(PaidChildren(cs, today), cs);
  }

  /** The run's entries continue the numbering of the table and belong to
      its children. */
  lemma PayoutNumbering(cs: seq<Child>, ts: seq<Transaction>, today: Date)
    requires Linked(cs, ts)
    ensures Linked(cs, ts + PayoutEntries(cs, today, |ts| + 1))
  {
    var es := PayoutEntries(cs, today, |ts| + 1);
    var ts' := ts + es;
    PayoutEntriesShape(cs, today, |ts| + 1);
    PayoutEntriesOwners(cs, today, |ts| + 1);
    forall k | 0 <= k < |ts'| ensures ts'[k].id == k + 1 && ts'[k].childId in ChildIds(cs) {
      if k < |ts| {
        assert ts'[k] == ts[k];
      } else {
        assert ts'[k] == es[k - |ts|];
      }
    }
  }

  /** After the run every balance still equals the child's ledger total. */
  lemma PayoutBalances(cs: seq<Child>, ts: seq<Transaction>, today: Date)
    requires BalancesMatch(cs, ts) && UniqueIds(cs)
    ensures BalancesMatch(PaidChildren(cs, today), ts + PayoutEntries(cs, today, |ts| + 1))
  {
    var cs', es := PaidChildren(cs, today), PayoutEntries(cs, today, |ts| + 1);
    forall k | 0 <= k < |cs|
      ensures cs'[k].id == cs[k].id && cs'[k].balance == cs[k].balance + LedgerTotal(es, cs[k].id)
    {
      PayoutEntriesPerChild(cs, today, |ts| + 1, k);
    }
    ShiftBalances(cs, cs', ts, es);
  }

  /** The run keeps the ledger consistent: ids, names and the links of
      transactions to children are untouched, the new entries continue the
      numbering, and every balance still equals the sum of the child's
      transactions. */
  lemma PayoutKeepsConsistent(cs: seq<Child>, ts: seq<Transaction>, next: nat, today: Date)
    requires Consistent(cs, ts, next)
    ensures Consistent(PaidChildren(cs, today), ts + PayoutEntries(cs, today, |ts| + 1), next)
  {
    var cs' := PaidChildren(cs, today);
    PaidChildrenKeys(cs, today);
    SameKeysKeepUnique(cs, cs', next);
    PayoutNumbering(cs, ts, today);
    SameKeysKeepLinks(cs, cs', ts + PayoutEntries(cs, today, |ts| + 1));
    PayoutBalances(cs, ts, today);
  }

  /** The loop of `run_weekly_payout`: one pass over the children rows,
      crediting each eligible child and staging its transaction, numbered
      from `firstId`. Nothing is written; the caller commits. */
  method PayoutPass(cs: seq<Child>, today: Date, firstId: nat)
    returns (children: seq<Child>, entries: seq<Transaction>)
    ensures children == PaidChildren(cs, today)
    ensures entries == PayoutEntries(cs, today, firstId)
  {
    children, entries := cs, [];
    ghost var done, rest := [], cs;
    var i := 0;
    while i < |children|
      invariant i == |done| && |children| == |done| + |rest|
      invariant done + rest == cs
      invariant children == PaidChildren(done, today) + rest
      invariant entries == PayoutEntries(done, today, firstId)
    {
      var c := children[i];
      assert rest == [c] + rest[1..];
      PayoutStep(done, c, rest[1..], today, firstId);
      if c.birthDate.Some? {
        var age := CalculateAge(c.birthDate, today);
        var payout := age * RateCents;
        if payout > 0 {
          var entry := Transaction(firstId + |entries|, c.id, payout,
                                   PayoutDescription(age), PayoutCategory);
          children := children[i := c.(balance := c.balance + payout)];
          entries := entries + [entry];
        }
      }
      done, rest := done + [c], rest[1..];
      i := i + 1;
    }
    assert done == cs;
    assert children == PaidChildren(cs, today) + [];
  }

  /** `run_weekly_payout`: the pass, then a single commit of the credited
      rows and the new transactions. */
  method RunWeeklyPayout(db: LedgerStore, today: Date)
    requires db.Valid()
    modifies db
    ensures db.Valid()
    ensures db.children == PaidChildren(old(db.children), today)
    ensures db.transactions == old(db.transactions)
              + PayoutEntries(old(db.children), today, |old(db.transactions)| + 1)
    ensures db.nextChildId == old(db.nextChildId)
  {
    var children, entries := PayoutPass(db.children, today, |db.transactions| + 1);
    PayoutKeepsConsistent(db.children, db.transactions, db.nextChildId, today);
    db.children, db.transactions := children, db.transactions + entries;
  }

  // ---------------------------------------------------------------------
  // Properties of one run

  /** Each payout entry is a positive "Pocket Money" credit numbered in
      sequence. */
  lemma {:induction false} PayoutEntriesShape(cs: seq<Child>, today: Date, firstId: nat)
    ensures forall k :: 0 <= k < |PayoutEntries(cs, today, firstId)| ==>
      && PayoutEntries(cs, today, firstId)[k].id == firstId + k
      && PayoutEntries(cs, today, firstId)[k].category == PayoutCategory
      && PayoutEntries(cs, today, firstId)[k].amount > 0
  {
    if cs != [] {
      var init, last := cs[..|cs| - 1], cs[|cs| - 1];
      PayoutEntriesShape(init, today, firstId);
      var before := PayoutEntries(init, today, firstId);
      if PayoutCents(last, today) > 0 {
        var e := PayoutEntry(last, today, firstId + |before|);
        assert e.id == firstId + |before| && e.category == PayoutCategory && e.amount > 0;
        var es := before + [e];
        assert es == PayoutEntries(cs, today, firstId);
        forall k | 0 <= k < |es|
          ensures es[k].id == firstId + k && es[k].category == PayoutCategory && es[k].amount > 0
        {
          if k < |before| {
            assert es[k] == before[k];
          } else {
            assert es[k] == e;
          }
        }
      }
    }
  }

  /** Under unique ids, the run books exactly one transaction for a credited
      child and none for any other, and that child's ledger total moves by
      exactly its balance increase. */
  lemma {:induction false} PayoutEntriesPerChild(cs: seq<Child>, today: Date, firstId: nat, i: nat)
    requires UniqueIds(cs)
    requires i < |cs|
    ensures |Own(PayoutEntries(cs, today, firstId), cs[i].id)| == (if PayoutCents(cs[i], today) > 0 then 1 else 0)
    ensures LedgerTotal(PayoutEntries(cs, today, firstId), cs[i].id) == Credited(cs[i], today).balance - cs[i].balance
  {
    var n := |cs| - 1;
    var init, last := cs[..n], cs[n];
    var before := PayoutEntries(init, today, firstId);
    var id := cs[i].id;
    if i < n {
      assert UniqueIds(init);
      PayoutEntriesPerChild(init, today, firstId, i);
      assert last.id != id;
      if PayoutCents(last, today) > 0 {
        LedgerTotalAppend(before, PayoutEntry(last, today, firstId + |before|), id);
        OwnAppend(before, PayoutEntry(last, today, firstId + |before|), id);
      }
    } else {
      PayoutEntriesLast(cs, today, firstId);
    }
  }

  /** The rows the run books for one child: none when its payout is not
      positive, otherwise exactly its payout entry. */
  lemma PayoutRowOfChild(cs: seq<Child>, today: Date, firstId: nat, i: nat)
    requires UniqueIds(cs)
    requires i < |cs|
    ensures PayoutCents(cs[i], today) <= 0 ==> Own(PayoutEntries(cs, today, firstId), cs[i].id) == []
    ensures PayoutCents(cs[i], today) > 0 ==>
      exists id: nat :: Own(PayoutEntries(cs, today, firstId), cs[i].id) == [PayoutEntry(cs[i], today, id)]
  {
    var ts := PayoutEntries(cs, today, firstId);
    PayoutEntriesPerChild(cs, today, firstId, i);
    if PayoutCents(cs[i], today) > 0 {
      var k := OwnSingleton(ts, cs[i].id);
      PayoutEntriesRows(cs, today, firstId);
      assert ts[k] == PayoutEntry(cs[i], today, firstId + k);
    }
  }

  /** Each payout entry belongs to the child with its id and is that child's
      payout entry, numbered by its position. */
  lemma {:induction false} PayoutEntriesRows(cs: seq<Child>, today: Date, firstId: nat)
    requires UniqueIds(cs)
    ensures forall k, i ::
      0 <= k < |PayoutEntries(cs, today, firstId)| && 0 <= i < |cs| &&
      PayoutEntries(cs, today, firstId)[k].childId == cs[i].id
      ==> PayoutCents(cs[i], today) > 0 && PayoutEntries(cs, today, firstId)[k] == PayoutEntry(cs[i], today, firstId + k)
  {
    if cs != [] {
      var n := |cs| - 1;
      var init, last := cs[..n], cs[n];
      assert UniqueIds(init);
      PayoutEntriesRows(init, today, firstId);
      var before := PayoutEntries(init, today, firstId);
      var es := PayoutEntries(cs, today, firstId);
      forall k, i | 0 <= k < |es| && 0 <= i < |cs| && es[k].childId == cs[i].id
        ensures PayoutCents(cs[i], today) > 0 && es[k] == PayoutEntry(cs[i], today, firstId + k)
      {
        if k < |before| {
          assert es[k] == before[k];
          PayoutEntriesOwners(init, today, firstId);
          var j := ChildIdsHasOnly(init, es[k].childId);
          assert init[j] == cs[j];
        } else {
          assert es[k] == PayoutEntry(last, today, firstId + |before|);
          assert i == n;
        }
      }
    }
  }

  /** The last child of the table: its entry, if any, is its only one. */
  lemma PayoutEntriesLast(cs: seq<Child>, today: Date, firstId: nat)
    requires UniqueIds(cs) && cs != []
    ensures |Own(PayoutEntries(cs, today, firstId), cs[|cs| - 1].id)|
         == (if PayoutCents(cs[|cs| - 1], today) > 0 then 1 else 0)
    ensures LedgerTotal(PayoutEntries(cs, today, firstId), cs[|cs| - 1].id)
         == Credited(cs[|cs| - 1], today).balance - cs[|cs| - 1].balance
  {
    var n := |cs| - 1;
    var init, last := cs[..n], cs[n];
    var before := PayoutEntries(init, today, firstId);
    var id := last.id;
    forall j | 0 <= j < |init| ensures init[j].id != id {
      assert init[j] == cs[j];
    }
    NoEntriesForOthers(init, today, firstId, id);
    if PayoutCents(last, today) > 0 {
      var e := PayoutEntry(last, today, firstId + |before|);
      LedgerTotalAppend(before, e, id);
      OwnAppend(before, e, id);
      SumAppend([], e);
    }
  }

  /** Children outside `cs` get nothing from the entries for `cs`. */
  lemma {:induction false} NoEntriesForOthers(cs: seq<Child>, today: Date, firstId: nat, id: int)
    requires forall j :: 0 <= j < |cs| ==> cs[j].id != id
    ensures Own(PayoutEntries(cs, today, firstId), id) == []
  {
    if cs != [] {
      var init, last := cs[..|cs| - 1], cs[|cs| - 1];
      NoEntriesForOthers(init, today, firstId, id);
      var before := PayoutEntries(init, today, firstId);
      if PayoutCents(last, today) > 0 {
        OwnAppend(before, PayoutEntry(last, today, firstId + |before|), id);
      }
    }
  }

  /** The job keeps no record of having run: a second run in the same week
      credits every eligible child a second time. */
  lemma PayoutTwicePaysTwice(cs: seq<Child>, today: Date, i: nat)
    requires i < |cs|
    ensures PaidChildren(PaidChildren(cs, today), today)[i].balance
         == cs[i].balance + 2 * (if PayoutCents(cs[i], today) > 0 then PayoutCents(cs[i], today) else 0)
  {
  }
}
