/** The pocket-money router: a ledger of children and their transactions.
    Every operation that moves money appends exactly one transaction, so a
    child's balance always equals the sum of that child's transaction
    amounts. */
module PocketMoney {
  import opened Common
  import opened UserModels

  // ---------------------------------------------------------------------
  // Specification functions over the transactions table

  /** The transactions of one child, in table order. */
  function Own(ts: seq<Transaction>, childId: int): (r: seq<Transaction>)
    ensures |r| <= |ts|
  {
    if ts == [] then []
    else
      var last := ts[|ts| - 1];
      Own(ts[..|ts| - 1], childId) + (if last.childId == childId then [last] else [])
  }

  /** `Own` keeps exactly the child's rows. */
  lemma {:induction false} OwnMembers(ts: seq<Transaction>, childId: int)
    ensures forall k :: 0 <= k < |Own(ts, childId)| ==>
      Own(ts, childId)[k] in ts && Own(ts, childId)[k].childId == childId
    ensures forall k :: 0 <= k < |ts| && ts[k].childId == childId ==> ts[k] in Own(ts, childId)
  {
    if ts != [] {
      var init, last := ts[..|ts| - 1], ts[|ts| - 1];
      OwnMembers(init, childId);
      assert ts == init + [last];
      OwnAppend(init, last, childId);
      var r, r0 := Own(ts, childId), Own(init, childId);
      forall k | 0 <= k < |r|
        ensures r[k] in ts && r[k].childId == childId
      {
        if k < |r0| {
          assert r[k] == r0[k];
          assert r0[k] in init;
        } else {
          assert r[k] == last;
        }
      }
      forall k | 0 <= k < |ts| && ts[k].childId == childId
        ensures ts[k] in r
      {
        if k < |init| {
          assert ts[k] == init[k];
          assert init[k] in r0;
        }
      }
    }
  }

  /** Total amount of a list of transactions. */
  function Sum(ts: seq<Transaction>): int
  {
    if ts == [] then 0 else Sum(ts[..|ts| - 1]) + ts[|ts| - 1].amount
  }

  /** A child's ledger total: what the balance must always equal. */
  function LedgerTotal(ts: seq<Transaction>, childId: int): int
  {
    Sum(Own(ts, childId))
  }

  /** Transaction ids strictly increase along the list: table order is
      timestamp order. */
  ghost predicate IdsIncreasing(ts: seq<Transaction>)
  {
    forall i, j :: 0 <= i < j < |ts| ==> ts[i].id < ts[j].id
  }

  /** The ledger invariant: keys and names unique, every transaction numbered
      by its position and owned by an existing child, and every balance equal
      to the child's ledger total. */
  ghost predicate Consistent(cs: seq<Child>, ts: seq<Transaction>, nextChildId: nat)
  {
    && UniqueIds(cs)
    && UniqueNames(cs)
    && (forall i :: 0 <= i < |cs| ==> cs[i].id < nextChildId)
    && Linked(cs, ts)
    && BalancesMatch(cs, ts)
  }

  /** Every transaction is numbered by its position and owned by an
      existing child. */
  ghost predicate Linked(cs: seq<Child>, ts: seq<Transaction>)
  {
    forall k :: 0 <= k < |ts| ==> ts[k].id == k + 1 && ts[k].childId in ChildIds(cs)
  }

  /** Every child's balance equals its ledger total (stated row by row from
      the end, so that it costs the solver no quantifier). */
  ghost predicate BalancesMatch(cs: seq<Child>, ts: seq<Transaction>)
  {
    cs == [] ||
    (BalancesMatch(cs[..|cs| - 1], ts) && cs[|cs| - 1].balance == LedgerTotal(ts, cs[|cs| - 1].id))
  }

  // ---------------------------------------------------------------------
  // Lemmas about the specification functions

  lemma OwnAppend(ts: seq<Transaction>, t: Transaction, childId: int)
    ensures Own(ts + [t], childId) == Own(ts, childId) + (if t.childId == childId then [t] else [])
  {
    assert (ts + [t])[..|ts|] == ts;
  }

  /** A ledger with exactly one row of a child holds it at some position. */
  lemma {:induction false} OwnSingleton(ts: seq<Transaction>, childId: int) returns (k: nat)
    requires |Own(ts, childId)| == 1
    ensures k < |ts| && ts[k].childId == childId && Own(ts, childId) == [ts[k]]
  {
    var n := |ts| - 1;
    OwnAppend(ts[..n], ts[n], childId);
    assert ts[..n] + [ts[n]] == ts;
    if ts[n].childId == childId {
      k := n;
      assert |Own(ts[..n], childId)| == 0;
    } else {
      k := OwnSingleton(ts[..n], childId);
    }
  }

  lemma SumAppend(ts: seq<Transaction>, t: Transaction)
    ensures Sum(ts + [t]) == Sum(ts) + t.amount
  {
    assert (ts + [t])[..|ts|] == ts;
  }

  /** Appending a transaction moves exactly its owner's ledger total, by
      exactly its amount. */
  lemma LedgerTotalAppend(ts: seq<Transaction>, t: Transaction, childId: int)
    ensures LedgerTotal(ts + [t], childId)
         == LedgerTotal(ts, childId) + (if t.childId == childId then t.amount else 0)
  {
    OwnAppend(ts, t, childId);
    if t.childId == childId {
      SumAppend(Own(ts, childId), t);
    } else {
      assert Own(ts, childId) + [] == Own(ts, childId);
    }
  }

  lemma {:induction false} OwnKeepsOrder(ts: seq<Transaction>, childId: int)
    requires IdsIncreasing(ts)
    ensures IdsIncreasing(Own(ts, childId))
  {
    if ts != [] {
      var init, last := ts[..|ts| - 1], ts[|ts| - 1];
      assert IdsIncreasing(init);
      OwnKeepsOrder(init, childId);
      OwnAppend(init, last, childId);
      OwnMembers(init, childId);
      var r0 := Own(init, childId);
      forall k | 0 <= k < |r0| ensures r0[k].id < last.id {
        var j :| 0 <= j < |init| && init[j] == r0[k];
        assert init[j] == ts[j];
      }
    }
  }

  /** A child nobody has booked anything for has an empty ledger. */
  lemma {:induction false} UnreferencedLedgerIsEmpty(ts: seq<Transaction>, childId: int)
    requires forall k :: 0 <= k < |ts| ==> ts[k].childId != childId
    ensures Own(ts, childId) == []
    ensures LedgerTotal(ts, childId) == 0
  {
    if ts != [] {
      var init := ts[..|ts| - 1];
      UnreferencedLedgerIsEmpty(init, childId);
      assert Own(ts, childId) == Own(init, childId) + [];
    }
  }

  /** The invariant, child by child: each balance is its ledger total. */
  lemma {:induction false} BalanceAt(cs: seq<Child>, ts: seq<Transaction>, i: nat)
    requires BalancesMatch(cs, ts)
    requires i < |cs|
    ensures cs[i].balance == LedgerTotal(ts, cs[i].id)
  {
    if i < |cs| - 1 {
      BalanceAt(cs[..|cs| - 1], ts, i);
    }
  }

  /** A transaction for nobody in `cs` moves no balance of theirs. */
  lemma {:induction false} ForeignAppendKeepsBalances(cs: seq<Child>, ts: seq<Transaction>, t: Transaction)
    requires BalancesMatch(cs, ts)
    requires forall j :: 0 <= j < |cs| ==> cs[j].id != t.childId
    ensures BalancesMatch(cs, ts + [t])
  {
    if cs != [] {
      ForeignAppendKeepsBalances(cs[..|cs| - 1], ts, t);
      LedgerTotalAppend(ts, t, cs[|cs| - 1].id);
    }
  }

  /** Crediting child `i` with a new transaction and raising its balance by
      the same amount keeps every balance equal to its ledger total. */
  lemma {:induction false} CreditKeepsBalances(cs: seq<Child>, ts: seq<Transaction>, i: nat, t: Transaction, balance: int)
    requires BalancesMatch(cs, ts) && UniqueIds(cs)
    requires i < |cs| && t.childId == cs[i].id
    requires balance == cs[i].balance + t.amount
    ensures BalancesMatch(cs[i := cs[i].(balance := balance)], ts + [t])
  {
    var n := |cs| - 1;
    var init, last := cs[..n], cs[n];
    assert cs == init + [last];
    assert UniqueIds(init);
    if i < n {
      CreditKeepsBalances(init, ts, i, t, balance);
      assert last.id != t.childId;
      LedgerTotalAppend(ts, t, last.id);
      var init' := init[i := init[i].(balance := balance)];
      assert cs[i := cs[i].(balance := balance)] == init' + [last];
      AppendRow(init', last, ts + [t]);
    } else {
      forall j | 0 <= j < |init| ensures init[j].id != t.childId {
        assert init[j] == cs[j];
      }
      ForeignAppendKeepsBalances(init, ts, t);
      LedgerTotalAppend(ts, t, last.id);
      assert cs[i := cs[i].(balance := balance)] == init + [last.(balance := balance)];
      AppendRow(init, last.(balance := balance), ts + [t]);
    }
  }

  lemma AppendRow(cs: seq<Child>, c: Child, ts: seq<Transaction>)
    requires BalancesMatch(cs, ts) && c.balance == LedgerTotal(ts, c.id)
    ensures BalancesMatch(cs + [c], ts)
  {
    assert (cs + [c])[..|cs|] == cs;
  }

  /** The ledger total over two batches is the sum of their totals. */
  lemma {:induction false} LedgerTotalConcat(ts: seq<Transaction>, es: seq<Transaction>, childId: int)
    ensures LedgerTotal(ts + es, childId) == LedgerTotal(ts, childId) + LedgerTotal(es, childId)
  {
    if es == [] {
      assert ts + es == ts;
    } else {
      var init, e := es[..|es| - 1], es[|es| - 1];
      assert es == init + [e];
      assert ts + es == (ts + init) + [e];
      LedgerTotalConcat(ts, init, childId);
      LedgerTotalAppend(ts + init, e, childId);
      LedgerTotalAppend(init, e, childId);
    }
  }

  /** Appending a batch of transactions keeps every balance equal to its
      ledger total when each balance moves by its owner's share of the
      batch. */
  lemma {:induction false} ShiftBalances(cs: seq<Child>, cs': seq<Child>, ts: seq<Transaction>, es: seq<Transaction>)
    requires BalancesMatch(cs, ts) && |cs'| == |cs|
    requires forall k :: 0 <= k < |cs| ==>
      cs'[k].id == cs[k].id && cs'[k].balance == cs[k].balance + LedgerTotal(es, cs[k].id)
    ensures BalancesMatch(cs', ts + es)
  {
    if cs != [] {
      var n := |cs| - 1;
      forall k | 0 <= k < n
        ensures cs'[..n][k].id == cs[..n][k].id
        ensures cs'[..n][k].balance == cs[..n][k].balance + LedgerTotal(es, cs[..n][k].id)
      {
        assert cs'[..n][k] == cs'[k] && cs[..n][k] == cs[k];
      }
      ShiftBalances(cs[..n], cs'[..n], ts, es);
      BalanceAt(cs, ts, n);
      LedgerTotalConcat(ts, es, cs[n].id);
    }
  }

  /** Rewriting children rows without touching ids or names keeps the key
      part of the invariant. */
  lemma SameKeysKeepUnique(cs: seq<Child>, cs': seq<Child>, next: nat)
    requires |cs'| == |cs|
    requires forall k :: 0 <= k < |cs| ==> cs'[k].id == cs[k].id && cs'[k].name == cs[k].name
    requires UniqueIds(cs) && UniqueNames(cs) && forall j :: 0 <= j < |cs| ==> cs[j].id < next
    ensures UniqueIds(cs') && UniqueNames(cs') && forall j :: 0 <= j < |cs'| ==> cs'[j].id < next
  {
  }

  /** Links depend only on the key set of the children. */
  lemma SameKeysKeepLinks(cs: seq<Child>, cs': seq<Child>, ts: seq<Transaction>)
    requires ChildIds(cs') == ChildIds(cs) && Linked(cs, ts)
    ensures Linked(cs', ts)
  {
  }

  /** Crediting one child with a new last transaction keeps the ledger
      consistent; Deposit, AdjustBalance and the weekly payout all step this
      way. */
  lemma CreditKeepsConsistent(cs: seq<Child>, ts: seq<Transaction>, next: nat, i: nat, t: Transaction, balance: int)
    requires Consistent(cs, ts, next)
    requires i < |cs| && t.childId == cs[i].id && t.id == |ts| + 1
    requires balance == cs[i].balance + t.amount
    ensures Consistent(cs[i := cs[i].(balance := balance)], ts + [t], next)
  {
    var cs' := cs[i := cs[i].(balance := balance)];
    var ts' := ts + [t];
    ChildIdsUpdate(cs, i, cs'[i]);
    CreditKeepsBalances(cs, ts, i, t, balance);
    SameKeysKeepUnique(cs, cs', next);
    assert Linked(cs, ts') by {
      forall k | 0 <= k < |ts'| ensures ts'[k].id == k + 1 && ts'[k].childId in ChildIds(cs) {
        if k < |ts| {
          assert ts'[k] == ts[k];
        } else {
          ChildIdsHasEvery(cs, i);
        }
      }
    }
    SameKeysKeepLinks(cs, cs', ts');
  }

  // ---------------------------------------------------------------------
  // Category statistics (GROUP BY category, SUM(amount))

  /** Total amount of the transactions in one category. */
  function CategoryTotal(ts: seq<Transaction>, category: string): int
  {
    if ts == [] then 0
    else
      var last := ts[|ts| - 1];
      CategoryTotal(ts[..|ts| - 1], category) + (if last.category == category then last.amount else 0)
  }

  /** Some transaction of the child carries the category. */
  ghost predicate Booked(ts: seq<Transaction>, childId: int, category: string)
  {
    exists k :: 0 <= k < |ts| && ts[k].childId == childId && ts[k].category == category
  }

  /** The categories of a child's own transactions are exactly the
      categories booked for that child. */
  lemma OwnCategories(ts: seq<Transaction>, childId: int)
    ensures forall c :: c in Categories(Own(ts, childId)) <==> Booked(ts, childId, c)
  {
    var own := Own(ts, childId);
    OwnMembers(ts, childId);
    forall c ensures c in Categories(own) <==> Booked(ts, childId, c) {
      if c in Categories(own) {
        var k :| 0 <= k < |own| && own[k].category == c;
        var j :| 0 <= j < |ts| && ts[j] == own[k];
      }
      if Booked(ts, childId, c) {
        var k :| 0 <= k < |ts| && ts[k].childId == childId && ts[k].category == c;
        var j :| 0 <= j < |own| && own[j] == ts[k];
      }
    }
  }

  ghost predicate Distinct(cs: seq<string>)
  {
    forall i, j :: 0 <= i < j < |cs| ==> cs[i] != cs[j]
  }

  /** The categories that occur in `ts`, each once. */
  function Categories(ts: seq<Transaction>): (r: seq<string>)
    ensures Distinct(r)
    ensures forall c :: c in r <==> exists k :: 0 <= k < |ts| && ts[k].category == c
  {
    if ts == [] then []
    else
      var init, last := ts[..|ts| - 1], ts[|ts| - 1];
      var cs := Categories(init);
      assert forall k :: 0 <= k < |init| ==> init[k] == ts[k];
      if last.category in cs then cs else cs + [last.category]
  }

  /** One (category, total) row per listed category. */
  function Rows(ts: seq<Transaction>, cs: seq<string>): (r: seq<(string, int)>)
    ensures |r| == |cs|
    ensures forall k :: 0 <= k < |cs| ==> r[k] == (cs[k], CategoryTotal(ts, cs[k]))
  {
    if cs == [] then [] else [(cs[0], CategoryTotal(ts, cs[0]))] + Rows(ts, cs[1..])
  }

  /** The rows the grouped query returns. */
  function Grouped(ts: seq<Transaction>): seq<(string, int)>
  {
    Rows(ts, Categories(ts))
  }

  /** Sum of the totals column. */
  function RowSum(rows: seq<(string, int)>): int
  {
    if rows == [] then 0 else rows[0].1 + RowSum(rows[1..])
  }

  /** `{category: total for category, total in rows}`: a later row for the
      same key wins. */
  function ToDict(rows: seq<(string, int)>): (m: map<string, int>)
    ensures forall c :: c in m <==> exists k :: 0 <= k < |rows| && rows[k].0 == c
  {
    if rows == [] then map[]
    else
      var m := ToDict(rows[1..]);
      assert forall k :: 1 <= k < |rows| ==> rows[1..][k - 1] == rows[k];
      if rows[0].0 in m then m else m[rows[0].0 := rows[0].1]
  }

  lemma {:induction false} RowSumAppend(ts: seq<Transaction>, t: Transaction, cs: seq<string>)
    requires Distinct(cs)
    ensures RowSum(Rows(ts + [t], cs)) == RowSum(Rows(ts, cs)) + (if t.category in cs then t.amount else 0)
  {
    assert (ts + [t])[..|ts|] == ts;
    if cs != [] {
      assert Distinct(cs[1..]);
      RowSumAppend(ts, t, cs[1..]);
      assert t.category in cs <==> t.category == cs[0] || t.category in cs[1..];
    }
  }

  /** Splitting a list of transactions by category loses nothing: the row
      totals add up to the overall total. */
  lemma {:induction false} RowsCoverTotal(ts: seq<Transaction>, cs: seq<string>)
    requires Distinct(cs)
    requires forall k :: 0 <= k < |ts| ==> ts[k].category in cs
    ensures RowSum(Rows(ts, cs)) == Sum(ts)
  {
    if ts == [] {
      RowsOfEmpty(cs);
    } else {
      var init, last := ts[..|ts| - 1], ts[|ts| - 1];
      assert ts == init + [last];
      RowsCoverTotal(init, cs);
      RowSumAppend(init, last, cs);
      SumAppend(init, last);
    }
  }

  lemma {:induction false} RowsOfEmpty(cs: seq<string>)
    ensures RowSum(Rows([], cs)) == 0
  {
    if cs != [] {
      RowsOfEmpty(cs[1..]);
    }
  }

  /** Each key of the dictionary built from the rows holds its own row's
      total when the keys are distinct. */
  lemma {:induction false} ToDictOfDistinctRows(ts: seq<Transaction>, cs: seq<string>)
    requires Distinct(cs)
    ensures forall c :: c in ToDict(Rows(ts, cs)) <==> c in cs
    ensures forall c :: c in ToDict(Rows(ts, cs)) ==> ToDict(Rows(ts, cs))[c] == CategoryTotal(ts, c)
  {
    var rows := Rows(ts, cs);
    if cs != [] {
      assert Distinct(cs[1..]);
      ToDictOfDistinctRows(ts, cs[1..]);
      assert rows[1..] == Rows(ts, cs[1..]);
      assert cs[0] !in cs[1..];
      forall c ensures c in ToDict(rows) <==> c in cs {
        assert c in cs <==> c == cs[0] || c in cs[1..];
      }
    }
  }

  // ---------------------------------------------------------------------
  // The store

  /** What `get_balance` answers. */
  datatype BalanceView = BalanceView(name: string, balance: int)

  /** What `get_child_id_by_name` answers. */
  datatype IdView = IdView(id: nat, name: string)

  class LedgerStore {
    var children: seq<Child>
    var transactions: seq<Transaction>
    var nextChildId: nat

    ghost predicate Valid()
      reads this
    {
      Consistent(children, transactions, nextChildId)
    }

    /** An empty database. */
    constructor ()
      ensures Valid()
      ensures children == [] && transactions == [] && nextChildId == 1
    {
      children := [];
      transactions := [];
      nextChildId := 1;
    }

    /** `GET /balance/{child_name}`. */
    function GetBalance(name: string): (r: Result<BalanceView>)
      reads this
      ensures r.Err? <==> forall j :: 0 <= j < |children| ==> children[j].name != name
      ensures r.Err? ==> r.error == NotFound
      ensures r.Ok? ==> r.value.name == name
      ensures r.Ok? ==> exists j :: 0 <= j < |children| && children[j] == Child(children[j].id, name, r.value.balance, children[j].birthDate)
    {
      match IndexOfName(children, name)
      case None => Err(NotFound)
      case Some(i) => Ok(BalanceView(children[i].name, children[i].balance))
    }

    /** `GET /child-id/{name}`. */
    function GetChildIdByName(name: string): (r: Result<IdView>)
      reads this
      ensures r.Err? <==> forall j :: 0 <= j < |children| ==> children[j].name != name
      ensures r.Err? ==> r.error == NotFound
      ensures r.Ok? ==> r.value.name == name
      ensures r.Ok? ==> exists j :: 0 <= j < |children| && children[j].id == r.value.id && children[j].name == name
    {
      match IndexOfName(children, name)
      case None => Err(NotFound)
      case Some(i) => Ok(IdView(children[i].id, children[i].name))
    }

    /** `PATCH /adjust-balance/{child_id}`: set the balance and record the
        difference as a correction, even when the difference is zero. */
    method AdjustBalance(childId: int, newBalance: int) returns (r: Result<int>)
      requires Valid()
      modifies this
      ensures Valid()
      ensures IndexOfId(old(children), childId).None? ==>
        r == Err(NotFound) && unchanged(this)
      ensures IndexOfId(old(children), childId).Some? ==>
        var i := IndexOfId(old(children), childId).value;
        var c := old(children)[i];
        && r == Ok(newBalance)
        && children == old(children)[i := c.(balance := newBalance)]
        && transactions == old(transactions)
             + [Transaction(|old(transactions)| + 1, c.id, newBalance - c.balance,
                            "Manual Balance Adjustment", "Correction")]
        && nextChildId == old(nextChildId)
    {
      var found := IndexOfId(children, childId);
      if found.None? {
        return Err(NotFound);
      }
      var i := found.value;
      var c := children[i];
      var entry := Transaction(|transactions| + 1, c.id, newBalance - c.balance,
                               "Manual Balance Adjustment", "Correction");
      CreditKeepsConsistent(children, transactions, nextChildId, i, entry, newBalance);
      children := children[i := c.(balance := newBalance)];
      transactions := transactions + [entry];
      r := Ok(newBalance);
    }

    /** `POST /add-child/{name}`: a new child with balance zero and no birth
        date. A name already in use is refused by the unique constraint,
        after the insert has drawn its serial id. */
    method AddChild(name: string) returns (r: Result<Child>)
      requires Valid()
      modifies this
      ensures Valid()
      ensures IndexOfName(old(children), name).Some? ==>
        && r == Err(DuplicateKey)
        && children == old(children) && transactions == old(transactions)
        && nextChildId == old(nextChildId) + 1
      ensures IndexOfName(old(children), name).None? ==>
        && r == Ok(NewChild(old(nextChildId), name))
        && children == old(children) + [NewChild(old(nextChildId), name)]
        && transactions == old(transactions)
        && nextChildId == old(nextChildId) + 1
    {
      if IndexOfName(children, name).Some? {
        nextChildId := nextChildId + 1;
        return Err(DuplicateKey);
      }
      var c := NewChild(nextChildId, name);
      ChildIdsBelow(children, nextChildId);
      UnreferencedLedgerIsEmpty(transactions, c.id);
      ChildIdsAppend(children, c);
      AppendRow(children, c, transactions);
      children := children + [c];
      nextChildId := nextChildId + 1;
      r := Ok(c);
    }

    /** `POST /deposit/{child_id}`: record a deposit and raise the balance by
        the same amount. The amount is not checked: zero and negative
        amounts go through. */
    method Deposit(childId: int, amount: int, description: string) returns (r: Result<int>)
      requires Valid()
      modifies this
      ensures Valid()
      ensures IndexOfId(old(children), childId).None? ==>
        r == Err(NotFound) && unchanged(this)
      ensures IndexOfId(old(children), childId).Some? ==>
        var i := IndexOfId(old(children), childId).value;
        var c := old(children)[i];
        && r == Ok(c.balance + amount)
        && children == old(children)[i := c.(balance := c.balance + amount)]
        && transactions == old(transactions)
             + [Transaction(|old(transactions)| + 1, c.id, amount, description, "Deposit")]
        && nextChildId == old(nextChildId)
    {
      var found := IndexOfId(children, childId);
      if found.None? {
        return Err(NotFound);
      }
      var i := found.value;
      var c := children[i];
      var entry := Transaction(|transactions| + 1, c.id, amount, description, "Deposit");
      var newBalance := c.balance + amount;
      CreditKeepsConsistent(children, transactions, nextChildId, i, entry, newBalance);
      children := children[i := c.(balance := newBalance)];
      transactions := transactions + [entry];
      r := Ok(newBalance);
    }

    /** `GET /history/{child_id}`: the child's transactions newest first,
        `skip` of them skipped and at most `limit` returned; a negative
        `skip` or `limit` reaches the database, which rejects it. */
    function History(childId: int, skip: int, limit: int): (r: Result<seq<Transaction>>)
      reads this
      ensures r.Err? <==> skip < 0 || limit < 0
      ensures r.Err? ==> r.error == NegativeWindow
      ensures r.Ok? ==> forall k :: 0 <= k < |r.value| ==> r.value[k] in transactions && r.value[k].childId == childId
      ensures r.Ok? ==> |r.value| <= limit
      ensures r.Ok? ==>
        |r.value| == Min(limit, if skip <= |Own(transactions, childId)| then |Own(transactions, childId)| - skip else 0)
      ensures r.Ok? ==> forall k :: 0 <= k < |r.value| ==>
        r.value[k] == Own(transactions, childId)[|Own(transactions, childId)| - 1 - skip - k]
    {
      if skip < 0 || limit < 0 then Err(NegativeWindow)
      else
        OwnMembers(transactions, childId);
        ReversedPage(Own(transactions, childId), skip, limit);
        Ok(Page(Reverse(Own(transactions, childId)), skip, limit))
    }

    /** `GET /stats/{child_id}`: category -> summed amount over the child's
        transactions. */
    function Stats(childId: int): (m: map<string, int>)
      reads this
      ensures forall c :: c in m <==> Booked(transactions, childId, c)
      ensures forall c :: c in m ==> m[c] == CategoryTotal(Own(transactions, childId), c)
    {
      var own := Own(transactions, childId);
      ToDictOfDistinctRows(own, Categories(own));
      OwnCategories(transactions, childId);
      ToDict(Grouped(own))
    }
  }

  // ---------------------------------------------------------------------
  // Properties of the queries against the ledger invariant

  /** The grouped rows and the dict built from them hold the same
      (category, total) pairs, one for one. */
  lemma GroupedIsDict(ts: seq<Transaction>)
    ensures |Grouped(ts)| == |ToDict(Grouped(ts))|
    ensures forall k :: 0 <= k < |Grouped(ts)| ==>
      Grouped(ts)[k].0 in ToDict(Grouped(ts)) && ToDict(Grouped(ts))[Grouped(ts)[k].0] == Grouped(ts)[k].1
  {
    var cs := Categories(ts);
    ToDictOfDistinctRows(ts, cs);
    DistinctKeysCount(cs);
    assert ToDict(Grouped(ts)).Keys == set c | c in cs;
  }

  /** A list of distinct strings has as many elements as its set. */
  lemma {:induction false} DistinctKeysCount(cs: seq<string>)
    requires Distinct(cs)
    ensures |set c | c in cs| == |cs|
  {
    if cs != [] {
      var n := |cs| - 1;
      assert Distinct(cs[..n]);
      DistinctKeysCount(cs[..n]);
      assert (set c | c in cs) == (set c | c in cs[..n]) + {cs[n]};
      assert cs[n] !in cs[..n];
    }
  }

  /** The balance `get_balance` reports is the sum of the child's own
      transactions, and it belongs to the one child with that name. */
  lemma GetBalanceIsLedgerTotal(db: LedgerStore, name: string, i: nat)
    requires db.Valid()
    requires i < |db.children| && db.children[i].name == name
    ensures db.GetBalance(name) == Ok(BalanceView(name, LedgerTotal(db.transactions, db.children[i].id)))
  {
    NameLookupIsUnique(db.children, name, i);
    BalanceAt(db.children, db.transactions, i);
  }

  /** History is newest first: ids strictly decrease along the page. */
  lemma HistoryNewestFirst(db: LedgerStore, childId: int, skip: int, limit: int)
    requires db.Valid()
    ensures var r := db.History(childId, skip, limit);
      r.Ok? ==> forall k, l :: 0 <= k < l < |r.value| ==> r.value[k].id > r.value[l].id
  {
    assert IdsIncreasing(db.transactions);
    OwnKeepsOrder(db.transactions, childId);
  }

  /** The stats totals add up to the child's whole ledger total, which is
      the balance. */
  lemma StatsAddUpToBalance(db: LedgerStore, i: nat)
    requires db.Valid()
    requires i < |db.children|
    ensures RowSum(Grouped(Own(db.transactions, db.children[i].id))) == db.children[i].balance
    ensures |Grouped(Own(db.transactions, db.children[i].id))| == |db.Stats(db.children[i].id)|
    ensures forall k :: 0 <= k < |Grouped(Own(db.transactions, db.children[i].id))| ==>
      var row := Grouped(Own(db.transactions, db.children[i].id))[k];
      row.0 in db.Stats(db.children[i].id) && db.Stats(db.children[i].id)[row.0] == row.1
  {
    var own := Own(db.transactions, db.children[i].id);
    GroupedIsDict(own);
    RowsCoverTotal(own, Categories(own));
    BalanceAt(db.children, db.transactions, i);
  }
}
