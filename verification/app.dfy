/**
  The request handlers of src/app.py as pure functions from the request's
  fields and the state to a status code, a response body and the next state.
  A JSON field or header that is absent is `None`; Python's `not x` on it is
  `!Given(x)`. Timing fields, logging and JSON shaping are not modelled.
 */
module App {
  import opened Wrappers
  import opened Users
  import opened Messages
  import UserStore
  import MessageStore
  import Cypher
  import UserService
  import AuthService
  import MessageService

  /** The two tables: users by email, and the message log. */
  datatype State = State(users: UserStore.UserTable, log: MessageStore.MessageLog)

  /** What the user endpoints show of a user: never the verifier. */
  datatype Profile = Profile(email: string, nickname: string)

  datatype Body =
    | Error(error: string)
    | Notice(message: string)
    | UserProfile(profile: Profile)
    | UserList(users: seq<Profile>)
    | TokenIssued(token: string)
      /** `(source, message)` pairs */
    | Inbox(received: seq<(string, string)>)
      /** `(target, message)` pairs */
    | Outbox(sent: seq<(string, string)>)

  datatype Reply = Reply(status: int, body: Body, next: State)

  const MissingData := "Missing data"
  const ShortPassword := "Password must have at least 8 characters"
  const UserExists := "User already exists"
  const UserNotFound := "User not found"
  const InvalidCredentials := "Invalid credentials"
  const SendFailed := "Error sending message"
  const ListUsersFailed := "Error getting users"
  const ReadFailed := "Error getting messages"

  /** The minimum password length, checked on creation only. */
  const MinPasswordLength := 8

  /** Python truthiness of an optional string field: present and non-empty. */
  predicate Given(field: Option<string>) {
    field.Some? && field.value != ""
  }

  function ProfileOf(u: User): Profile {
    Profile(u.email, u.nickname)
  }

  /** Every state reachable through the handlers keeps the user table valid. */
  predicate Invariant(st: State) {
    UserService.Valid(st.users)
  }

  /**
    The password policy as a property of the table: every stored verifier
    decodes to a password of at least 8 characters.
   */
  predicate StrongPasswords(t: UserStore.UserTable) {
    forall e :: e in t ==>
      var p := Cypher.RecoverPassword(t[e].password);
      p.Some? && |p.value| >= MinPasswordLength
  }

  /**
    POST /user. Checks, in order: a missing or empty field, a password shorter
    than 8 characters, an existing email (each 400); otherwise the user is
    added with 201. Only the 201 path changes the state.
   */
  function CreateUser(st: State, email: Option<string>, password: Option<string>, nickname: Option<string>)
    : (r: Reply)
    ensures r.status == 201 || r.status == 400
    ensures r.status == 201 <==>
      Given(email) && Given(password) && Given(nickname)
      && |password.value| >= MinPasswordLength && email.value !in st.users
    ensures !(Given(email) && Given(password) && Given(nickname)) ==> r.body == Error(MissingData)
    ensures Given(email) && Given(password) && Given(nickname) && |password.value| < MinPasswordLength
      ==> r.body == Error(ShortPassword)
    ensures r.status == 201 ==>
      && r.next.users.Keys == st.users.Keys + {email.value}
      && r.next.users[email.value] == User(email.value, Cypher.CypherPassword(password.value), nickname.value)
      && forall e :: e in st.users ==> r.next.users[e] == st.users[e]
    ensures r.status != 201 ==> r.next == st
    ensures r.next.log == st.log
    ensures Invariant(st) ==> Invariant(r.next)
    ensures StrongPasswords(st.users) ==> StrongPasswords(r.next.users)
  {
    if !Given(email) || !Given(password) || !Given(nickname) then Reply(400, Error(MissingData), st)
    else if |password.value| < MinPasswordLength then Reply(400, Error(ShortPassword), st)
    else if UserService.GetUser(st.users, email.value).Some? then Reply(400, Error(UserExists), st)
    else
      Cypher.RecoverCypherPassword(password.value);
      var users := UserService.AddUser(st.users, email.value, password.value, nickname.value);
      Reply(201, Notice("User created"), st.(users := users))
  }

  /**
    No user with a password shorter than 8 characters is created through
    POST /user: the password recovered from any new row is the one requested,
    and it is long enough.
   */
  lemma CreatedPasswordsAreLong(st: State, email: Option<string>, password: Option<string>, nickname: Option<string>)
    ensures var r := CreateUser(st, email, password, nickname);
      forall e :: e in r.next.users && e !in st.users ==>
        && password.Some?
        && Cypher.RecoverPassword(r.next.users[e].password) == password
        && |password.value| >= MinPasswordLength
  {
    var r := CreateUser(st, email, password, nickname);
    if r.status == 201 {
      Cypher.RecoverCypherPassword(password.value);
    }
  }

  /**
    GET /user. An empty table is reported as a failure (500); otherwise 200
    with the email and nickname of every user, each once.
   */
  method ListUsers(st: State) returns (r: Reply)
    ensures r.next == st
    ensures r.status == 200 || r.status == 500
    ensures r.status == 500 <==> |st.users| == 0
    ensures r.status == 500 ==> r.body == Error(ListUsersFailed)
    ensures r.status == 200 ==>
      && r.body.UserList?
      && |r.body.users| == |st.users|
      && (forall u :: u in st.users.Values ==> ProfileOf(u) in r.body.users)
      && (forall p :: p in r.body.users ==> exists u :: u in st.users.Values && ProfileOf(u) == p)
  {
    var users := UserService.GetAllUsers(st.users);
    if |users| == 0 {
      return Reply(500, Error(ListUsersFailed), st);
    }
    var profiles := seq(|users|, i requires 0 <= i < |users| => ProfileOf(users[i]));
    forall u | u in st.users.Values
      ensures ProfileOf(u) in profiles
    {
      var i :| 0 <= i < |users| && users[i] == u;
      assert profiles[i] == ProfileOf(u);
    }
    forall p | p in profiles
      ensures exists u :: u in st.users.Values && ProfileOf(u) == p
    {
      var i :| 0 <= i < |profiles| && profiles[i] == p;
      assert users[i] in users;
    }
    r := Reply(200, UserList(profiles), st);
  }

  /**
    PUT /user/<email>. 400 when password or nickname is missing, 404 when the
    email is unknown, else the row is rewritten with 200. There is no
    minimum-length check here.
   */
  function UpdateUser(st: State, email: string, password: Option<string>, nickname: Option<string>)
    : (r: Reply)
    ensures r.status == 200 || r.status == 400 || r.status == 404
    ensures r.status == 400 <==> !(Given(password) && Given(nickname))
    ensures r.status == 404 <==> Given(password) && Given(nickname) && email !in st.users
    ensures r.status == 200 ==>
      && r.next.users.Keys == st.users.Keys
      && r.next.users[email] == User(email, Cypher.CypherPassword(password.value), nickname.value)
      && forall e :: e in st.users && e != email ==> r.next.users[e] == st.users[e]
    ensures r.status != 200 ==> r.next == st
    ensures r.next.log == st.log
    ensures Invariant(st) ==> Invariant(r.next)
  {
    if !Given(password) || !Given(nickname) then Reply(400, Error(MissingData), st)
    else if UserService.GetUser(st.users, email).None? then Reply(404, Error(UserNotFound), st)
    else
      var (users, _) := UserService.UpdateUser(st.users, email, password.value, nickname.value);
      Reply(200, Notice("User updated"), st.(users := users))
  }

  /**
    PUT /user/<email> corrected to apply the password policy of POST /user:
    a password shorter than 8 characters is refused with 400 before the user
    is looked up, so the policy holds of every stored password.
   */
  function UpdateUserChecked(st: State, email: string, password: Option<string>, nickname: Option<string>)
    : (r: Reply)
    ensures r.status == 200 || r.status == 400 || r.status == 404
    ensures r.status == 400 <==>
      !(Given(password) && Given(nickname)) || |password.value| < MinPasswordLength
    ensures r.status == 404 <==>
      Given(password) && Given(nickname) && |password.value| >= MinPasswordLength && email !in st.users
    ensures r.status == 200 ==>
      && r.next.users.Keys == st.users.Keys
      && r.next.users[email] == User(email, Cypher.CypherPassword(password.value), nickname.value)
      && forall e :: e in st.users && e != email ==> r.next.users[e] == st.users[e]
    ensures r.status != 200 ==> r.next == st
    ensures r.next.log == st.log
    ensures Invariant(st) ==> Invariant(r.next)
    ensures StrongPasswords(st.users) ==> StrongPasswords(r.next.users)
  {
    if !Given(password) || !Given(nickname) then Reply(400, Error(MissingData), st)
    else if |password.value| < MinPasswordLength then Reply(400, Error(ShortPassword), st)
    else if UserService.GetUser(st.users, email).None? then Reply(404, Error(UserNotFound), st)
    else
      Cypher.RecoverCypherPassword(password.value);
      var (users, _) := UserService.UpdateUser(st.users, email, password.value, nickname.value);
      Reply(200, Notice("User updated"), st.(users := users))
  }

  /**
    As written, PUT /user/<email> stores a 5-character password for any
    registered user, breaking the policy that POST /user enforces.
   */
  lemma UpdateAcceptsShortPassword(st: State, email: string, nickname: string)
    requires email in st.users
    requires nickname != ""
    ensures var r := UpdateUser(st, email, Some("short"), Some(nickname));
      && r.status == 200
      && Cypher.RecoverPassword(r.next.users[email].password) == Some("short")
      && |"short"| < MinPasswordLength
      && !StrongPasswords(r.next.users)
  {
    var r := UpdateUser(st, email, Some("short"), Some(nickname));
    Cypher.RecoverCypherPassword("short");
    assert email in r.next.users;
  }

  /** DELETE /user/<email>: 404 for an unknown email, else the row is removed with 200. */
  function DeleteUser(st: State, email: string): (r: Reply)
    ensures r.status == 200 || r.status == 404
    ensures r.status == 404 <==> email !in st.users
    ensures r.status == 200 ==> r.next.users.Keys == st.users.Keys - {email}
    ensures forall e :: e in r.next.users ==> e in st.users && r.next.users[e] == st.users[e]
    ensures r.status == 404 ==> r.next == st
    ensures r.next.log == st.log
    ensures Invariant(st) ==> Invariant(r.next)
    ensures StrongPasswords(st.users) ==> StrongPasswords(r.next.users)
  {
    if UserService.GetUser(st.users, email).None? then Reply(404, Error(UserNotFound), st)
    else
      var (users, _) := UserService.DeleteUser(st.users, email);
      Reply(200, Notice("User deleted"), st.(users := users))
  }

  /** GET /user/<email>: 404, or 200 with the stored email and nickname; read-only. */
  function GetUser(st: State, email: string): (r: Reply)
    ensures r.next == st
    ensures r.status == 200 || r.status == 404
    ensures r.status == 404 <==> email !in st.users
    ensures r.status == 200 ==> r.body == UserProfile(ProfileOf(st.users[email]))
  {
    match UserService.GetUser(st.users, email)
    case None => Reply(404, Error(UserNotFound), st)
    case Some(user) => Reply(200, UserProfile(ProfileOf(user)), st)
  }

  /**
    POST /auth. 400 when email or password is missing, 401 when the service
    issues no token, else 200 with the token; read-only.
   */
  function Authenticate(st: State, email: Option<string>, password: Option<string>): (r: Reply)
    ensures r.next == st
    ensures r.status == 200 || r.status == 400 || r.status == 401
    ensures r.status == 400 <==> !(Given(email) && Given(password))
    ensures r.status == 401 <==>
      Given(email) && Given(password) && AuthService.Authenticate(st.users, email.value, password.value).None?
    ensures r.status == 200 ==>
      && r.body.TokenIssued?
      && Some(r.body.token) == AuthService.Authenticate(st.users, email.value, password.value)
  {
    if !Given(email) || !Given(password) then Reply(400, Error(MissingData), st)
    else
      var token := AuthService.Authenticate(st.users, email.value, password.value);
      if !Given(token) then Reply(401, Error(InvalidCredentials), st)
      else Reply(200, TokenIssued(token.value), st)
  }

  /**
    POST /message. 400 when the Authorization header or any of source, target
    or message is missing; 500 (not 401) when the service refuses the token;
    else 201 with exactly one record appended.
   */
  function SendMessage(
    st: State, token: Option<string>, source: Option<string>, target: Option<string>, message: Option<string>)
    : (r: Reply)
    ensures r.status == 201 || r.status == 400 || r.status == 500
    ensures r.status == 400 <==> !(Given(token) && Given(source) && Given(target) && Given(message))
    ensures r.status == 500 <==>
      Given(token) && Given(source) && Given(target) && Given(message)
      && !AuthService.ValidateToken(st.users, source.value, token.value)
    ensures r.status == 201 ==> r.next.log == st.log + [Message(source.value, target.value, message.value)]
    ensures r.status != 201 ==> r.next.log == st.log
    ensures r.next.users == st.users
  {
    if !Given(token) || !Given(source) || !Given(target) || !Given(message) then
      Reply(400, Error(MissingData), st)
    else
      var (log, sent) := MessageService.AddMessage(
        st.log, st.users, token.value, source.value, target.value, message.value);
      if !sent then Reply(500, Error(SendFailed), st)
      else Reply(201, Notice("Message sent"), st.(log := log))
  }

  /** `(source, message)` for each record, as the receiving endpoints list them. */
  function Senders(ms: MessageStore.MessageLog): (pairs: seq<(string, string)>)
    ensures |pairs| == |ms|
    ensures forall i :: 0 <= i < |ms| ==> pairs[i] == (ms[i].source, ms[i].message)
  {
    seq(|ms|, i requires 0 <= i < |ms| => (ms[i].source, ms[i].message))
  }

  /** `(target, message)` for each record, as the "sent" endpoint lists them. */
  function Recipients(ms: MessageStore.MessageLog): (pairs: seq<(string, string)>)
    ensures |pairs| == |ms|
    ensures forall i :: 0 <= i < |ms| ==> pairs[i] == (ms[i].target, ms[i].message)
  {
    seq(|ms|, i requires 0 <= i < |ms| => (ms[i].target, ms[i].message))
  }

  /**
    GET /message/<email>. The service's answer is used as a truth value, so both a
    refused token and an empty mailbox give 500; otherwise 200 with the
    messages addressed to `email`, in log order. Read-only.
   */
  function GetMessages(st: State, token: Option<string>, email: string): (r: Reply)
    ensures r.next == st
    ensures r.status == 200 || r.status == 500
    ensures r.status == 500 <==>
      !(token.Some? && AuthService.ValidateToken(st.users, email, token.value))
      || MessageStore.GetMessages(st.log, email) == []
    ensures r.status == 200 ==> r.body == Inbox(Senders(MessageStore.GetMessages(st.log, email)))
  {
    var messages := MessageService.GetMessages(st.log, st.users, token, email);
    if messages.None? || messages.value == [] then Reply(500, Error(ReadFailed), st)
    else Reply(200, Inbox(Senders(messages.value)), st)
  }

  /** GET /message/all/<email>: the same query and the same listing as GET /message/<email>. */
  function GetAllMessages(st: State, token: Option<string>, email: string): (r: Reply)
    ensures r == GetMessages(st, token, email)
  {
    var messages := MessageService.GetMessages(st.log, st.users, token, email);
    if messages.None? || messages.value == [] then Reply(500, Error(ReadFailed), st)
    else Reply(200, Inbox(Senders(messages.value)), st)
  }

  /**
    GET /message/sent/<email> as written: the same target-filtered query, so
    it lists the messages `email` received, each shown with its target, which
    is always `email` itself.
   */
  function GetSentMessages(st: State, token: Option<string>, email: string): (r: Reply)
    ensures r.next == st
    ensures r.status == 200 || r.status == 500
    ensures r.status == 500 <==>
      !(token.Some? && AuthService.ValidateToken(st.users, email, token.value))
      || MessageStore.GetMessages(st.log, email) == []
    ensures r.status == 200 ==> r.body == Outbox(Recipients(MessageStore.GetMessages(st.log, email)))
    ensures r.status == 200 ==> forall i :: 0 <= i < |r.body.sent| ==> r.body.sent[i].0 == email
  {
    var messages := MessageService.GetMessages(st.log, st.users, token, email);
    if messages.None? || messages.value == [] then Reply(500, Error(ReadFailed), st)
    else Reply(200, Outbox(Recipients(messages.value)), st)
  }

  /** Listing records that all share one source keeps exactly their (target, text) pairs. */
  lemma RecipientsOfSender(sent: MessageStore.MessageLog, email: string)
    requires forall i :: 0 <= i < |sent| ==> sent[i].source == email
    ensures forall target, text :: (target, text) in Recipients(sent) <==> Message(email, target, text) in sent
  {
    var pairs := Recipients(sent);
    forall target, text | (target, text) in pairs
      ensures Message(email, target, text) in sent
    {
      var i :| 0 <= i < |pairs| && pairs[i] == (target, text);
      assert sent[i] == Message(email, target, text);
    }
    forall target, text | Message(email, target, text) in sent
      ensures (target, text) in pairs
    {
      var i :| 0 <= i < |sent| && sent[i] == Message(email, target, text);
      assert pairs[i] == (target, text);
    }
  }

  /**
    GET /message/sent/<email> corrected to list what `email` sent: gated by
    the token of `email`, and 200 with exactly the records whose source is
    `email`, shown with their targets.
   */
  function GetSentMessagesBySource(st: State, token: Option<string>, email: string): (r: Reply)
    ensures r.next == st
    ensures r.status == 200 || r.status == 500
    ensures r.status == 500 <==>
      !(token.Some? && AuthService.ValidateToken(st.users, email, token.value))
      || MessageStore.GetMessagesBySource(st.log, email) == []
    ensures r.status == 200 ==> r.body == Outbox(Recipients(MessageStore.GetMessagesBySource(st.log, email)))
    ensures r.status == 200 ==>
      && r.body.Outbox?
      && forall target, text :: (target, text) in r.body.sent <==>
           Message(email, target, text) in st.log
  {
    var messages := MessageService.GetSentMessages(st.log, st.users, token, email);
    if messages.None? || messages.value == [] then Reply(500, Error(ReadFailed), st)
    else
      var sent := messages.value;
      var pairs := Recipients(sent);
      RecipientsOfSender(sent, email);
      Reply(200, Outbox(pairs), st)
  }

  /**
    As written, the "sent" endpoint does not list what a user sent: after a
    user with an empty inbox sends a message to someone else, reading their
    "sent" messages fails with 500, while the corrected endpoint lists it.
   */
  lemma SentEndpointOmitsSentMessage(
    st: State, email: string, password: string, target: string, text: string)
    requires Invariant(st)
    requires AuthService.Authenticate(st.users, email, password).Some?
    requires email != "" && target != email && target != "" && text != ""
    requires MessageStore.GetMessages(st.log, email) == []
    ensures var token := AuthService.Authenticate(st.users, email, password);
      var sent := SendMessage(st, token, Some(email), Some(target), Some(text));
      && sent.status == 201
      && GetSentMessages(sent.next, token, email).status == 500
      && GetSentMessagesBySource(sent.next, token, email).status == 200
      && (target, text) in GetSentMessagesBySource(sent.next, token, email).body.sent
  {
    var token := AuthService.Authenticate(st.users, email, password);
    AuthService.IssuedTokenValidates(st.users, email, password);
    assert Given(token) by {
      assert token.value == Cypher.CreateToken(email, st.users[email].password);
    }
    var sent := SendMessage(st, token, Some(email), Some(target), Some(text));
    var m := Message(email, target, text);
    assert sent.next.log == MessageStore.AddMessage(st.log, m);
    MessageStore.GetMessagesAfterAdd(st.log, m, email);
    assert m in sent.next.log;
    assert MessageStore.GetMessagesBySource(sent.next.log, email) != [] by {
      assert m in MessageStore.GetMessagesBySource(sent.next.log, email);
    }
  }

  /**
    A session: after a successful login the token sends as its owner (201)
    and is refused as anyone else (500, nothing appended).
   */
  lemma LoginThenSend(
    st: State, email: string, password: string, other: string, target: string, text: string)
    requires Invariant(st)
    requires Authenticate(st, Some(email), Some(password)).status == 200
    requires other != email && other != "" && target != "" && text != ""
    ensures var token := Some(Authenticate(st, Some(email), Some(password)).body.token);
      && SendMessage(st, token, Some(email), Some(target), Some(text)).status == 201
      && SendMessage(st, token, Some(other), Some(target), Some(text)).status == 500
      && SendMessage(st, token, Some(other), Some(target), Some(text)).next == st
  {
    AuthService.IssuedTokenValidatesOnlyForOwner(st.users, email, password, email);
    AuthService.IssuedTokenValidatesOnlyForOwner(st.users, email, password, other);
  }

  /**
    A session: once the password is changed to a different one, the token
    from the earlier login can neither send nor read.
   */
  lemma PasswordChangeLocksOutOldToken(
    st: State, email: string, password: string, newPassword: string, nickname: string,
    target: string, text: string)
    requires Invariant(st)
    requires Authenticate(st, Some(email), Some(password)).status == 200
    requires newPassword != password && newPassword != "" && nickname != ""
    requires target != "" && text != ""
    ensures var token := Some(Authenticate(st, Some(email), Some(password)).body.token);
      var st' := UpdateUser(st, email, Some(newPassword), Some(nickname)).next;
      && SendMessage(st', token, Some(email), Some(target), Some(text)).status == 500
      && GetMessages(st', token, email).status == 500
  {
    AuthService.PasswordChangeRevokesToken(st.users, email, password, newPassword, nickname);
  }

  /** One request to the API, with its path parameter, JSON fields and Authorization header. */
  datatype Request =
    | PostUser(email: Option<string>, password: Option<string>, nickname: Option<string>)
    | GetUsers
    | PutUser(path: string, password: Option<string>, nickname: Option<string>)
    | DeleteUserAt(path: string)
    | GetUserAt(path: string)
    | PostAuth(email: Option<string>, password: Option<string>)
    | PostMessage(token: Option<string>, source: Option<string>, target: Option<string>, message: Option<string>)
    | GetMessagesOf(token: Option<string>, path: string)
    | GetAllMessagesOf(token: Option<string>, path: string)
    | GetSentMessagesOf(token: Option<string>, path: string)

  /**
    The route table. Across every request: the message log only grows, and by
    at most one record, only through a successful POST /message; the user
    table changes only through the user endpoints, and stays valid.
   */
  method Handle(st: State, request: Request) returns (r: Reply)
    ensures st.log <= r.next.log
    ensures r.next.log != st.log ==> request.PostMessage? && r.status == 201 && |r.next.log| == |st.log| + 1
    ensures r.next.users != st.users ==> request.PostUser? || request.PutUser? || request.DeleteUserAt?
    ensures Invariant(st) ==> Invariant(r.next)
  {
    match request
    case PostUser(email, password, nickname) => r := CreateUser(st, email, password, nickname);
    case GetUsers => r := ListUsers(st);
    case PutUser(path, password, nickname) => r := UpdateUser(st, path, password, nickname);
    case DeleteUserAt(path) => r := DeleteUser(st, path);
    case GetUserAt(path) => r := GetUser(st, path);
    case PostAuth(email, password) => r := Authenticate(st, email, password);
    case PostMessage(token, source, target, message) => r := SendMessage(st, token, source, target, message);
    case GetMessagesOf(token, path) => r := GetMessages(st, token, path);
    case GetAllMessagesOf(token, path) => r := GetAllMessages(st, token, path);
    case GetSentMessagesOf(token, path) => r := GetSentMessages(st, token, path);
  }
}
