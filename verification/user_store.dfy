/**
  `UserStorage` (src/storage/user.py): the `users` table with `email` as its
  primary key, modelled as a map from email to row. SQLite errors other than
  the primary-key conflict are not modelled.
 */
module UserStore {
  import opened Wrappers
  import opened Users

  /** At most one row per email: the map's keys are the primary key. */
  type UserTable = map<string, User>

  /** Every row is filed under its own email. */
  predicate Keyed(t: UserTable) {
    forall e :: e in t ==> t[e].email == e
  }

  /**
    `add_user`: an INSERT. A row whose email is already present violates the
    primary key; the error is caught and logged, and the table is unchanged.
   */
  function AddUser(t: UserTable, u: User): (t': UserTable)
    ensures u.email in t ==> t' == t
    ensures t'.Keys == t.Keys + {u.email}
    ensures u.email !in t ==> t'[u.email] == u
    ensures forall e :: e in t ==> t'[e] == t[e]
    ensures Keyed(t) ==> Keyed(t')
  {
    if u.email in t then t else t[u.email := u]
  }

  /** `get_user`: the row with exactly that email, or `None`. */
  function GetUser(t: UserTable, email: string): (r: Option<User>)
    ensures r.Some? <==> email in t
    ensures r.Some? ==> r.value == t[email]
    ensures Keyed(t) && r.Some? ==> r.value.email == email
  {
    if email in t then Some(t[email]) else None
  }

  /**
    `get_all_users`: every row exactly once. SELECT without ORDER BY imposes no
    order, and neither does this contract.
   */
  method GetAllUsers(t: UserTable) returns (users: seq<User>)
    ensures |users| == |t|
    ensures forall u :: u in users <==> u in t.Values
    ensures Keyed(t) ==> forall i, j :: 0 <= i < j < |users| ==> users[i].email != users[j].email
  {
    users := [];
    var remaining := t.Keys;
    ghost var visited: seq<string> := [];
    while remaining != {}
      invariant remaining <= t.Keys
      invariant |users| + |remaining| == |t|
      invariant |visited| == |users|
      invariant forall i :: 0 <= i < |visited| ==> visited[i] in t && visited[i] !in remaining
      invariant forall i :: 0 <= i < |users| ==> users[i] == t[visited[i]]
      invariant forall i, j :: 0 <= i < j < |visited| ==> visited[i] != visited[j]
      invariant forall e :: e in t && e !in remaining ==> e in visited
      decreases remaining
    {
      var e :| e in remaining;
      users := users + [t[e]];
      visited := visited + [e];
      remaining := remaining - {e};
    }
    assert |t.Keys| == |t|;
    forall u | u in t.Values
      ensures u in users
    {
      var e :| e in t && t[e] == u;
      var i :| 0 <= i < |visited| && visited[i] == e;
      assert users[i] == u;
    }
  }

  /**
    `update_user`: an UPDATE of password and nickname WHERE email matches. It
    reports success even when no row matched, and then changes nothing.
   */
  function UpdateUser(t: UserTable, u: User): (r: (UserTable, bool))
    ensures r.1
    ensures r.0.Keys == t.Keys
    ensures u.email in t ==> r.0[u.email] == u
    ensures forall e :: e in t && e != u.email ==> r.0[e] == t[e]
    ensures u.email !in t ==> r.0 == t
    ensures Keyed(t) ==> Keyed(r.0)
  {
    if u.email in t then (t[u.email := u], true) else (t, true)
  }

  /** `delete_user`: a DELETE by email, reporting success whether or not a row existed. */
  function DeleteUser(t: UserTable, email: string): (r: (UserTable, bool))
    ensures r.1
    ensures r.0.Keys == t.Keys - {email}
    ensures forall e :: e in r.0 ==> r.0[e] == t[e]
    ensures Keyed(t) ==> Keyed(r.0)
  {
    (t - {email}, true)
  }
}
