/** The pocket-money tables: children, their transactions and their wishes,
    together with what the declared relationships do when a child row is
    deleted. Money is held in integer cents. */
module UserModels {
  import opened Common

  /** A calendar date as the triple the age rule compares. */
  datatype Date = Date(year: int, month: int, day: int)

  /** A row of `children`. `birthDate` may be absent. */
  datatype Child = Child(id: nat, name: string, balance: int, birthDate: Option<Date>)

  /** A row of `transactions`. `id` is the serial key; rows are appended in
      id order, so it also orders them by their creation timestamp. */
  datatype Transaction = Transaction(
    id: nat, childId: nat, amount: int, description: string, category: string)

  /** A row of `wishes`. */
  datatype Wish = Wish(id: nat, childId: nat, itemName: string, cost: int)

  /** A child as `add_child` creates it: balance zero, no birth date. */
  function NewChild(id: nat, name: string): (c: Child)
    ensures c.id == id && c.name == name
    ensures c.balance == 0 && c.birthDate == None
  {
    Child(id, name, 0, None)
  }

  /** The set of child ids present in the table. */
  ghost function ChildIds(cs: seq<Child>): set<nat>
  {
    if cs == [] then {} else ChildIds(cs[..|cs| - 1]) + {cs[|cs| - 1].id}
  }

  lemma {:induction false} ChildIdsHasEvery(cs: seq<Child>, i: nat)
    requires i < |cs|
    ensures cs[i].id in ChildIds(cs)
  {
    if i < |cs| - 1 {
      ChildIdsHasEvery(cs[..|cs| - 1], i);
    }
  }

  /** Every id of the set belongs to some row of the table. */
  lemma {:induction false} ChildIdsHasOnly(cs: seq<Child>, x: nat) returns (i: nat)
    requires x in ChildIds(cs)
    ensures i < |cs| && cs[i].id == x
  {
    var n := |cs| - 1;
    if cs[n].id == x {
      i := n;
    } else {
      i := ChildIdsHasOnly(cs[..n], x);
    }
  }

  lemma {:induction false} ChildIdsBelow(cs: seq<Child>, bound: nat)
    requires forall i :: 0 <= i < |cs| ==> cs[i].id < bound
    ensures forall x :: x in ChildIds(cs) ==> x < bound
  {
    if cs != [] {
      ChildIdsBelow(cs[..|cs| - 1], bound);
    }
  }

  lemma {:induction false} ChildIdsUpdate(cs: seq<Child>, i: nat, c: Child)
    requires i < |cs| && c.id == cs[i].id
    ensures ChildIds(cs[i := c]) == ChildIds(cs)
  {
    var init := cs[..|cs| - 1];
    if i < |cs| - 1 {
      ChildIdsUpdate(init, i, c);
      assert cs[i := c][..|cs| - 1] == init[i := c];
    } else {
      assert cs[i := c][..|cs| - 1] == init;
    }
  }

  lemma ChildIdsAppend(cs: seq<Child>, c: Child)
    ensures ChildIds(cs + [c]) == ChildIds(cs) + {c.id}
  {
    assert (cs + [c])[..|cs|] == cs;
  }

  /** Tables with the same ids row by row have the same id set. */
  lemma {:induction false} ChildIdsSameKeys(a: seq<Child>, b: seq<Child>)
    requires |a| == |b| && forall k :: 0 <= k < |a| ==> a[k].id == b[k].id
    ensures ChildIds(a) == ChildIds(b)
  {
    if a != [] {
      var n := |a| - 1;
      forall k | 0 <= k < n ensures a[..n][k].id == b[..n][k].id {
        assert a[..n][k] == a[k] && b[..n][k] == b[k];
      }
      ChildIdsSameKeys(a[..n], b[..n]);
    }
  }

  /** `id` is a primary key of `children`. */
  ghost predicate UniqueIds(cs: seq<Child>)
  {
    forall i, j :: 0 <= i < j < |cs| ==> cs[i].id != cs[j].id
  }

  /** The `UNIQUE` constraint on `children.name`. */
  ghost predicate UniqueNames(cs: seq<Child>)
  {
    forall i, j :: 0 <= i < j < |cs| ==> cs[i].name != cs[j].name
  }

  /** Position of the first child with the given id, as `.first()` finds it. */
  function IndexOfId(cs: seq<Child>, id: int): (r: Option<nat>)
    ensures r.Some? ==> r.value < |cs| && cs[r.value].id == id
    ensures r.Some? ==> forall j :: 0 <= j < r.value ==> cs[j].id != id
    ensures r.None? <==> forall j :: 0 <= j < |cs| ==> cs[j].id != id
  {
    if cs == [] then None
    else if cs[0].id == id then Some(0)
    else match IndexOfId(cs[1..], id)
      case None => None
      case Some(k) => Some(k + 1)
  }

  /** Position of the first child with the given name. */
  function IndexOfName(cs: seq<Child>, name: string): (r: Option<nat>)
    ensures r.Some? ==> r.value < |cs| && cs[r.value].name == name
    ensures r.Some? ==> forall j :: 0 <= j < r.value ==> cs[j].name != name
    ensures r.None? <==> forall j :: 0 <= j < |cs| ==> cs[j].name != name
  {
    if cs == [] then None
    else if cs[0].name == name then Some(0)
    else match IndexOfName(cs[1..], name)
      case None => None
      case Some(k) => Some(k + 1)
  }

  /** Under the unique-name constraint the row `.first()` finds by name is
      the only row with that name. */
  lemma NameLookupIsUnique(cs: seq<Child>, name: string, i: nat)
    requires UniqueNames(cs)
    requires i < |cs| && cs[i].name == name
    ensures IndexOfName(cs, name) == Some(i)
  {
  }

  /** The three tables the relationships of a child row span. */
  datatype Tables = Tables(children: seq<Child>, transactions: seq<Transaction>, wishes: seq<Wish>)

  /** Wishes not owned by the given child, in their original order. */
  function WishesNotOf(ws: seq<Wish>, childId: nat): (r: seq<Wish>)
    ensures forall k :: 0 <= k < |r| ==> r[k] in ws && r[k].childId != childId
    ensures forall w :: w in ws && w.childId != childId ==> w in r
    ensures |r| <= |ws|
  {
    if ws == [] then []
    else if ws[|ws| - 1].childId == childId then WishesNotOf(ws[..|ws| - 1], childId)
    else WishesNotOf(ws[..|ws| - 1], childId) + [ws[|ws| - 1]]
  }

  /** Children other than the given one, in their original order. */
  function ChildrenNot(cs: seq<Child>, id: nat): (r: seq<Child>)
    ensures forall k :: 0 <= k < |r| ==> r[k] in cs && r[k].id != id
    ensures forall c :: c in cs && c.id != id ==> c in r
  {
    if cs == [] then []
    else if cs[|cs| - 1].id == id then ChildrenNot(cs[..|cs| - 1], id)
    else ChildrenNot(cs[..|cs| - 1], id) + [cs[|cs| - 1]]
  }

  /** Deleting a child row: the `delete-orphan` cascade on `wishes` removes
      the child's wishes; `transactions` declares no cascade, so its rows
      stay where they are. */
  function DeleteChild(t: Tables, id: nat): (r: Tables)
    ensures forall c :: c in r.children ==> c.id != id && c in t.children
    ensures forall c :: c in t.children && c.id != id ==> c in r.children
    ensures forall w :: w in r.wishes ==> w.childId != id && w in t.wishes
    ensures forall w :: w in t.wishes && w.childId != id ==> w in r.wishes
    ensures r.transactions == t.transactions
  {
    Tables(ChildrenNot(t.children, id), t.transactions, WishesNotOf(t.wishes, id))
  }
}
