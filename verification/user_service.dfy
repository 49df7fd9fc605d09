/**
  `UserService` (src/service/user.py): derives the verifier with `Cypher` and
  delegates to `UserStore`. Every stored password is a verifier, never the
  plaintext; `Valid` states that invariant and each operation keeps it.
 */
module UserService {
  import opened Wrappers
  import opened Users
  import UserStore
  import Cypher

  /** Rows are filed under their emails and hold verifiers. */
  predicate Valid(t: UserStore.UserTable) {
    && UserStore.Keyed(t)
    && forall e :: e in t ==> Cypher.IsVerifier(t[e].password)
  }

  /**
    `add_user`: stores `User(email, cypher_password(password), nickname)`; an
    existing email keeps its record untouched.
   */
  function AddUser(t: UserStore.UserTable, email: string, password: string, nickname: string)
    : (t': UserStore.UserTable)
    ensures email in t ==> t' == t
    ensures t'.Keys == t.Keys + {email}
    ensures email !in t ==> t'[email] == User(email, Cypher.CypherPassword(password), nickname)
    ensures email !in t && |password| > 0 ==> t'[email].password != password
    ensures forall e :: e in t ==> t'[e] == t[e]
    ensures Valid(t) ==> Valid(t')
  {
    Cypher.CypherPasswordIsVerifier(password);
    UserStore.AddUser(t, User(email, Cypher.CypherPassword(password), nickname))
  }

  /** `get_user`: exactly what the store holds for that email, or `None`. */
  function GetUser(t: UserStore.UserTable, email: string): (r: Option<User>)
    ensures r.Some? <==> email in t
    ensures r.Some? ==> r.value == t[email]
    ensures UserStore.Keyed(t) && r.Some? ==> r.value.email == email
  {
    UserStore.GetUser(t, email)
  }

  /** `get_all_users`: every stored user once, in no particular order. */
  method GetAllUsers(t: UserStore.UserTable) returns (users: seq<User>)
    ensures |users| == |t|
    ensures forall u :: u in users <==> u in t.Values
  {
    users := UserStore.GetAllUsers(t);
  }

  /**
    `update_user`: re-derives the verifier from the new password and replaces
    the nickname of the row with that email; `True` even when there is none.
   */
  function UpdateUser(t: UserStore.UserTable, email: string, password: string, nickname: string)
    : (r: (UserStore.UserTable, bool))
    ensures r.1
    ensures r.0.Keys == t.Keys
    ensures email in t ==> r.0[email] == User(email, Cypher.CypherPassword(password), nickname)
    ensures forall e :: e in t && e != email ==> r.0[e] == t[e]
    ensures Valid(t) ==> Valid(r.0)
  {
    Cypher.CypherPasswordIsVerifier(password);
    UserStore.UpdateUser(t, User(email, Cypher.CypherPassword(password), nickname))
  }

  /** `delete_user`: afterwards the email is unknown and every other user is as before. */
  function DeleteUser(t: UserStore.UserTable, email: string): (r: (UserStore.UserTable, bool))
    ensures r.1
    ensures GetUser(r.0, email).None?
    ensures forall e :: e != email ==> GetUser(r.0, e) == GetUser(t, e)
    ensures Valid(t) ==> Valid(r.0)
  {
    UserStore.DeleteUser(t, email)
  }
}
