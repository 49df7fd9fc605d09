/**
  `MessageService` (src/service/message.py): log access gated by the token.
  A send is checked against the claimed source, a read against the target.
 */
module MessageService {
  import opened Wrappers
  import opened Messages
  import UserStore
  import UserService
  import MessageStore
  import AuthService

  /**
    `add_message`: refused, with the log unchanged, unless the token validates
    for `source`; otherwise exactly one record is appended. The target is never
    checked against the user table.
   */
  function AddMessage(
    log: MessageStore.MessageLog, users: UserStore.UserTable,
    token: string, source: string, target: string, message: string)
    : (r: (MessageStore.MessageLog, bool))
    ensures r.1 <==> AuthService.ValidateToken(users, source, token)
    ensures r.1 ==> r.0 == MessageStore.AddMessage(log, Message(source, target, message))
    ensures !r.1 ==> r.0 == log
  {
    if !AuthService.ValidateToken(users, source, token) then (log, false)
    else (MessageStore.AddMessage(log, Message(source, target, message)), true)
  }

  /**
    `get_messages`: `None` unless the token validates for `target` (an absent
    `Authorization` header never does); otherwise the records addressed to
    `target`. The log is only read.
   */
  function GetMessages(
    log: MessageStore.MessageLog, users: UserStore.UserTable, token: Option<string>, target: string)
    : (r: Option<MessageStore.MessageLog>)
    ensures r.Some? <==> token.Some? && AuthService.ValidateToken(users, target, token.value)
    ensures r.Some? ==> forall m :: m in r.value <==> m in log && m.target == target
    ensures r.Some? ==> r.value == MessageStore.GetMessages(log, target)
  {
    if token.None? || !AuthService.ValidateToken(users, target, token.value) then None
    else Some(MessageStore.GetMessages(log, target))
  }

  /**
    The intended "sent" query, which `MessageService` of src/service/message.py
    lacks: gated by the token of `source`, returning every record sent by
    `source`, each as often as it was stored.
   */
  function GetSentMessages(
    log: MessageStore.MessageLog, users: UserStore.UserTable, token: Option<string>, source: string)
    : (r: Option<MessageStore.MessageLog>)
    ensures r.Some? <==> token.Some? && AuthService.ValidateToken(users, source, token.value)
    ensures r.Some? ==> forall m :: m in r.value <==> m in log && m.source == source
    ensures r.Some? ==> forall m :: multiset(r.value)[m] == if m.source == source then multiset(log)[m] else 0
    ensures r.Some? ==> r.value == MessageStore.GetMessagesBySource(log, source)
  {
    if token.None? || !AuthService.ValidateToken(users, source, token.value) then None
    else Some(MessageStore.GetMessagesBySource(log, source))
  }

  /** A token issued to one user cannot send with another user as source. */
  lemma CannotSendAsAnother(
    log: MessageStore.MessageLog, users: UserStore.UserTable, email: string, password: string,
    other: string, target: string, message: string)
    requires UserService.Valid(users)
    requires AuthService.Authenticate(users, email, password).Some?
    requires other != email
    ensures var token := AuthService.Authenticate(users, email, password).value;
      AddMessage(log, users, token, other, target, message) == (log, false)
  {
    AuthService.IssuedTokenValidatesOnlyForOwner(users, email, password, other);
  }

  /** Nor can it read another user's mailbox. */
  lemma CannotReadAnothersMailbox(
    log: MessageStore.MessageLog, users: UserStore.UserTable, email: string, password: string, other: string)
    requires UserService.Valid(users)
    requires AuthService.Authenticate(users, email, password).Some?
    requires other != email
    ensures GetMessages(log, users, AuthService.Authenticate(users, email, password), other).None?
  {
    AuthService.IssuedTokenValidatesOnlyForOwner(users, email, password, other);
  }
}
