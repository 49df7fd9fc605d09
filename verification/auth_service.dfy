/**
  `AuthService` (src/service/auth.py): issues a token on a verifier match and
  validates a token by recomputing it from the stored verifier. There is no
  signature, expiry or revocation list: a token is valid exactly while the
  user's stored verifier is unchanged.
 */
module AuthService {
  import opened Wrappers
  import opened Users
  import UserStore
  import UserService
  import Cypher

  /**
    `authenticate`: `None` for an unknown email and, by falling off the end of
    the Python function, for a wrong password; otherwise the token built from
    the email and the matching verifier.
   */
  function Authenticate(t: UserStore.UserTable, email: string, password: string): (token: Option<string>)
    ensures email !in t ==> token.None?
    ensures token.Some? <==> email in t && t[email].password == Cypher.CypherPassword(password)
    ensures token.Some? ==> token.value == Cypher.CreateToken(email, t[email].password)
  {
    match UserService.GetUser(t, email)
    case None => None
    case Some(user) =>
      var verifier := Cypher.CypherPassword(password);
      if user.password == verifier then Some(Cypher.CreateToken(email, verifier)) else None
  }

  /**
    `validate_token`: false for an unknown email; otherwise true exactly when
    the token is the one recomputed from the stored row. The exception path
    and the fall-through both return a falsy value, modelled as `false`.
   */
  function ValidateToken(t: UserStore.UserTable, email: string, token: string): (ok: bool)
    ensures ok <==> email in t && token == Cypher.CreateToken(t[email].email, t[email].password)
  {
    match UserService.GetUser(t, email)
    case None => false
    case Some(user) => Cypher.CreateToken(user.email, user.password) == token
  }

  /** Round trip: a freshly issued token validates for its own email. */
  lemma IssuedTokenValidates(t: UserStore.UserTable, email: string, password: string)
    requires UserStore.Keyed(t)
    requires Authenticate(t, email, password).Some?
    ensures ValidateToken(t, email, Authenticate(t, email, password).value)
  {
  }

  /** A token validates for at most one email. */
  lemma TokenValidatesForOneEmail(t: UserStore.UserTable, e1: string, e2: string, token: string)
    requires UserService.Valid(t)
    requires ValidateToken(t, e1, token) && ValidateToken(t, e2, token)
    ensures e1 == e2
  {
    Cypher.VerifierHasNoColon(t[e1].password);
    Cypher.VerifierHasNoColon(t[e2].password);
    Cypher.CreateTokenInjective(e1, t[e1].password, e2, t[e2].password);
  }

  /** An issued token validates for its own email and for no other. */
  lemma IssuedTokenValidatesOnlyForOwner(t: UserStore.UserTable, email: string, password: string, other: string)
    requires UserService.Valid(t)
    requires Authenticate(t, email, password).Some?
    ensures ValidateToken(t, other, Authenticate(t, email, password).value) <==> other == email
  {
    var token := Authenticate(t, email, password).value;
    IssuedTokenValidates(t, email, password);
    if ValidateToken(t, other, token) {
      TokenValidatesForOneEmail(t, email, other, token);
    }
  }

  /**
    Changing the password to a different one revokes the old token; tokens of
    every other user keep validating exactly as before.
   */
  lemma PasswordChangeRevokesToken(
    t: UserStore.UserTable, email: string, password: string, newPassword: string, nickname: string)
    requires UserService.Valid(t)
    requires Authenticate(t, email, password).Some?
    requires newPassword != password
    ensures var t' := UserService.UpdateUser(t, email, newPassword, nickname).0;
      && !ValidateToken(t', email, Authenticate(t, email, password).value)
      && forall other, token :: other != email ==> ValidateToken(t', other, token) == ValidateToken(t, other, token)
  {
    var t' := UserService.UpdateUser(t, email, newPassword, nickname).0;
    var token := Authenticate(t, email, password).value;
    if ValidateToken(t', email, token) {
      var v, v' := Cypher.CypherPassword(password), Cypher.CypherPassword(newPassword);
      assert Cypher.CreateToken(email, v') == Cypher.CreateToken(email, v);
      Cypher.CreateTokenInjective(email, v', email, v);
      Cypher.CypherPasswordInjective(newPassword, password);
    }
  }

  /** After deletion no token validates for the deleted email. */
  lemma DeleteRevokesTokens(t: UserStore.UserTable, email: string, token: string)
    ensures !ValidateToken(UserService.DeleteUser(t, email).0, email, token)
  {
  }

  /**
    The scheme's weakness, stated as a theorem: whoever holds a valid token can
    read the email and the plaintext password out of it, and that password
    authenticates.
   */
  lemma TokenRevealsPassword(t: UserStore.UserTable, email: string, token: string)
    requires UserService.Valid(t)
    requires ValidateToken(t, email, token)
    ensures Cypher.ReadToken(token).Some?
    ensures Cypher.ReadToken(token).value.0 == email
    ensures var password := Cypher.RecoverPassword(Cypher.ReadToken(token).value.1);
      password.Some? && Authenticate(t, email, password.value) == Some(token)
  {
    var v := t[email].password;
    Cypher.VerifierHasNoColon(v);
    Cypher.ReadCreateToken(email, v);
  }
}
