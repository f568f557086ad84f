/** The browser-side session of the family-photos front end: who is
    logged in, and the copy of that record kept in local storage so that a
    reload finds the same user again. */
module Auth {
  import opened Common

  /** A user record as the front end holds it: field name to value. */
  type Record = map<string, string>

  /** `{ ...cur, ...d }`: every field of `d`, and every field of `cur` that
      `d` does not name. */
  function Merge(cur: Record, d: Record): (r: Record)
    ensures r.Keys == cur.Keys + d.Keys
    ensures forall k :: k in d ==> r[k] == d[k]
    ensures forall k :: k in cur && k !in d ==> r[k] == cur[k]
  {
    cur + d
  }

  /** Applying the same update twice changes nothing the first did not. */
  lemma MergeIdempotent(cur: Record, d: Record)
    ensures Merge(Merge(cur, d), d) == Merge(cur, d)
  {
    var once := Merge(cur, d);
    var twice := Merge(once, d);
    assert twice.Keys == once.Keys;
    forall k | k in twice ensures twice[k] == once[k] {
      if k !in d { assert twice[k] == once[k]; }
    }
  }

  /** Two updates in a row are one update with the later one's values
      winning. */
  lemma MergeTwice(cur: Record, d1: Record, d2: Record)
    ensures Merge(Merge(cur, d1), d2) == Merge(cur, Merge(d1, d2))
  {
    var lhs := Merge(Merge(cur, d1), d2);
    var rhs := Merge(cur, Merge(d1, d2));
    assert lhs.Keys == rhs.Keys;
    forall k | k in lhs ensures lhs[k] == rhs[k] {
      if k in d2 {
      } else if k in d1 {
        assert lhs[k] == d1[k];
      } else {
        assert lhs[k] == cur[k];
      }
    }
  }

  /** An update naming no field changes nothing. */
  lemma MergeNothing(cur: Record)
    ensures Merge(cur, map[]) == cur
  {
    assert Merge(cur, map[]).Keys == cur.Keys;
  }

  /** What the store holds: the current user, and the `user` entry of
      local storage (None when the entry is absent). */
  datatype Session = Session(current: Option<Record>, stored: Option<Record>)

  datatype Action = Login(user: Record) | UpdateUser(newData: Record) | Logout

  /** The memory copy and the persisted copy agree. */
  predicate Synced(s: Session)
  {
    s.stored == s.current
  }

  /** The session a freshly loaded page starts with: the persisted user, or
      no one when nothing is stored. */
  function Initial(persisted: Option<Record>): (s: Session)
    ensures s.current == persisted && Synced(s)
  {
    Session(persisted, persisted)
  }

  /** The effect of one action on the session. */
  function Apply(s: Session, a: Action): (r: Session)
    ensures a.Login? ==> r.current == Some(a.user)
    ensures a.Logout? ==> r.current.None?
    ensures a.UpdateUser? && s.current.None? ==> r == s
    ensures a.UpdateUser? && s.current.Some? ==> r.current == Some(Merge(s.current.value, a.newData))
    ensures a.Login? || a.Logout? || s.current.Some? ==> Synced(r)
  {
    match a
    case Login(user) => Session(Some(user), Some(user))
    case UpdateUser(d) =>
      if s.current.Some? then
        var u := Merge(s.current.value, d);
        Session(Some(u), Some(u))
      else s
    case Logout => Session(None, None)
  }

  /** The session after the actions, in order. */
  function Run(s: Session, actions: seq<Action>): Session
    decreases |actions|
  {
    if actions == [] then s else Run(Apply(s, actions[0]), actions[1..])
  }

  /** Whatever the actions, the persisted copy follows the current user. */
  lemma {:induction false} RunKeepsSynced(s: Session, actions: seq<Action>)
    requires Synced(s)
    ensures Synced(Run(s, actions))
    decreases |actions|
  {
    if actions != [] {
      RunKeepsSynced(Apply(s, actions[0]), actions[1..]);
    }
  }

  /** So a reload after any sequence of actions restores the same user. */
  lemma ReloadRestores(persisted: Option<Record>, actions: seq<Action>)
    ensures Initial(Run(Initial(persisted), actions).stored) == Run(Initial(persisted), actions)
  {
    RunKeepsSynced(Initial(persisted), actions);
  }

  /** Updates while logged out are lost: no one becomes logged in. */
  lemma {:induction false} UpdatesNeedLogin(s: Session, updates: seq<Action>)
    requires s.current.None?
    requires forall k :: 0 <= k < |updates| ==> updates[k].UpdateUser?
    ensures Run(s, updates) == s
    decreases |updates|
  {
    if updates != [] {
      assert updates[0].UpdateUser?;
      UpdatesNeedLogin(Apply(s, updates[0]), updates[1..]);
    }
  }

  /** The Pinia store: `currentUser` in memory and the `user` entry of
      local storage. */
  class AuthStore {
    var currentUser: Option<Record>
    var stored: Option<Record>

    function State(): Session
      reads this
    {
      Session(currentUser, stored)
    }

    ghost predicate Valid()
      reads this
    {
      Synced(State())
    }

    /** The initial state reads the persisted user back. */
    constructor (persisted: Option<Record>)
      ensures State() == Initial(persisted)
      ensures Valid()
    {
      currentUser := persisted;
      stored := persisted;
    }

    method Login(user: Record)
      modifies this
      ensures State() == Apply(old(State()), Action.Login(user))
      ensures currentUser == Some(user) && Valid()
    {
      currentUser := Some(user);
      stored := Some(user);
    }

    /** A no-op when no one is logged in; otherwise the merged record,
        persisted. */
    method UpdateUser(newData: Record)
      modifies this
      ensures State() == Apply(old(State()), Action.UpdateUser(newData))
      ensures old(currentUser).None? ==> currentUser == old(currentUser) && stored == old(stored)
      ensures old(currentUser).Some? ==>
        currentUser == Some(Merge(old(currentUser).value, newData)) && Valid()
      ensures old(Valid()) ==> Valid()
    {
      if currentUser.Some? {
        currentUser := Some(Merge(currentUser.value, newData));
        stored := currentUser;
      }
    }

    method Logout()
      modifies this
      ensures State() == Apply(old(State()), Action.Logout)
      ensures currentUser.None? && stored.None?
    {
      currentUser := None;
      stored := None;
    }
  }
}
