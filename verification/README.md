# chatao: credential and authorization chain, modelled in Dafny

chatao is a small Flask chat API. Users register, authenticate, and send text
messages to each other, and all state lives in two SQLite tables. This project
models the API's core as pure functions over an abstract state. The core is the
chain that derives stored verifiers and bearer tokens, checks them, and gates
every message read and write. The model also covers the handlers' decision
logic.

The state is a map from email to `User` (the `users` table, with email as its
primary key) plus a sequence of `Message` records (the append-only `messages`
table). Every operation returns the next state with its result.

| module (file) | models |
|---|---|
| `Utf8` (utf8.dfy) | `bytes(s, 'utf-8')`, section 3 of RFC 3629, with a strict decoder |
| `Base64` (base64.dfy) | `base64.b64encode`, section 4 of RFC 4648, with a canonical decoder |
| `Cypher` (cypher.dfy) | `cypher_password`, `create_token`, and reading both back |
| `Users`, `Messages` (user.dfy, message.dfy) | the domain records |
| `UserStore`, `MessageStore` | the two tables |
| `UserService`, `AuthService`, `MessageService` | the services |
| `App` (app.dfy) | each route's ordered checks, status code and state change |

What is proved:
- The verifier and the token are plain Base64 over UTF-8. Both encodings round-trip in both directions.
- A verifier therefore gives back the password, and a token gives back the email and the verifier. The token is read by decoding it and splitting at the last `:`. Base64 output holds no `:`, so the split is unique.
- An issued token validates for its own email and for no other.
- The token stops validating once the password changes or the user is deleted.
- A token issued to one user cannot send as another user or read another user's mailbox.
- Across every route, the message log only grows, and the user table keeps its invariant. The invariant is that rows are filed under their own email and hold verifiers.

Behaviour of the code that the model reproduces as written:
- The verifier is unsalted, reversible Base64 of the password's UTF-8 octets (src/service/cypher.py:10-11). The requirements comment at src/app.py:27 asks for a hash with salt.
- A send that the token check refuses answers 500 (src/app.py:235-241).
- Storage update and delete return `True` even when no row has that email (src/storage/user.py:75 and src/storage/user.py:89). The services pass that value on (src/service/user.py:44 and src/service/user.py:51).
- The only message query filters by target (src/storage/message.py:42-46). The "sent" endpoint calls it too (src/app.py:290), so it lists received messages. The requirements comment at src/app.py:18 asks for the messages a user sent.
- The handlers test each service result for truth. An empty user list (src/app.py:103) and an empty mailbox (src/app.py:255, src/app.py:273, src/app.py:291) are therefore answered with 500.
- The 8-character password rule (requirements comment at src/app.py:26) is enforced only by POST /user (src/app.py:75-81). PUT /user/<email> (src/app.py:123-139) and the user service do not check it.

## Model

| member | source | states |
|---|---|---|
| Base64.Encode | src/service/cypher.py:10 | Base64 output has length 4·⌈n/3⌉ for n input octets |
| Base64.EncodeAlphabet | src/service/cypher.py:10 | Base64 output uses only `A–Z a–z 0–9 + / =`, and so never contains `:` |
| Base64.DecodeEncode | src/service/cypher.py:10 | decoding the Base64 of any octet string gives back exactly those octets |
| Base64.EncodeDecode | src/service/cypher.py:10 | every string the decoder accepts is exactly the encoding of what it returns |
| Base64.EncodeInjective | src/service/cypher.py:10 | distinct octet strings have distinct Base64 encodings |
| Utf8.Encode | src/service/cypher.py:10 | the UTF-8 form of a string is never shorter than the string, and non-empty for a non-empty string |
| Utf8.DecodeEncode | src/service/cypher.py:10 | decoding the UTF-8 form of any string gives back exactly that string |
| Utf8.EncodeDecode | src/service/cypher.py:10 | every octet sequence the strict decoder accepts is exactly the encoding of its result |
| Utf8.EncodeInjective | src/service/cypher.py:10 | distinct strings have distinct UTF-8 forms |
| Cypher.CypherPassword | src/service/cypher.py:8-14 | the verifier is Base64 of the password's UTF-8 octets: length 4·⌈n/3⌉ for n octets, Base64 characters only, no `:`, strictly longer than any non-empty password |
| Cypher.RecoverCypherPassword | src/service/cypher.py:10-11 | the transform is reversible: decoding a verifier yields exactly the password |
| Cypher.CypherRecoveredPassword | src/service/cypher.py:10-11 | any string that decodes to a password is that password's verifier |
| Cypher.CypherPasswordInjective | src/service/cypher.py:10-11 | distinct passwords give distinct verifiers |
| Cypher.VerifierHasNoColon | src/service/cypher.py:10 | a stored verifier is the output of `cypher_password` for the password it decodes to, and holds no `:` |
| Cypher.CypherPasswordIsVerifier | src/service/cypher.py:10-11 | every output of `cypher_password` decodes to a password |
| Cypher.CreateToken | src/service/cypher.py:16-23 | a token is Base64 over the UTF-8 of `email:verifier`; it is never empty and holds only Base64 characters |
| Cypher.SplitAtLastColon | src/service/cypher.py:18 | splitting at the last `:` gives a prefix and a colon-free suffix that rejoin to the input; `None` exactly when there is no `:` |
| Cypher.LastColonUnique | src/service/cypher.py:18 | `a:b` with colon-free `b` determines `a` and `b` |
| Cypher.ReadCreateToken | src/service/cypher.py:18-20 | for a colon-free verifier, reading a token gives back exactly its email and verifier |
| Cypher.CreateTokenInjective | src/service/cypher.py:18-20 | for colon-free verifiers, equal tokens have equal emails and equal verifiers |
| Cypher.TokenCollisionWithColon | src/service/cypher.py:18 | the token depends only on `email:verifier`, so a `:` inside the verifier makes two different pairs share one token |
| Users.Display | src/domain/user.py:9-10 | the text form is the email, then `: `, then the nickname, with the email's length marking where `: ` sits |
| Users.DisplayReadBack | src/domain/user.py:9-10 | when neither email contains `: `, equal text forms come from users with equal emails and equal nicknames |
| Users.DisplayAmbiguous | src/domain/user.py:9-10 | without that hypothesis the text is ambiguous: `a: b` with nickname `c` and `a` with nickname `b: c` print alike |
| Users.DisplayIgnoresPassword | src/domain/user.py:9-10 | the text form does not change when only the password changes |
| Users.SameUserIgnoresProfile | src/domain/user.py:12-16 | users differing only in password or nickname compare equal and hash equally |
| Users.SameUserSameHash | src/domain/user.py:15-16 | equal users hash equally, whatever the string hash is |
| UserStore.AddUser | src/storage/user.py:27-37 | an insert with a fresh email adds exactly that row; an existing email leaves the table unchanged (the constraint error is swallowed); other rows untouched; keying by email preserved |
| UserStore.GetUser | src/storage/user.py:39-52 | returns the row with exactly that email, or `None` when there is none |
| UserStore.GetAllUsers | src/storage/user.py:54-63 | returns every stored row exactly once (as many users as rows, no duplicate emails), in no particular order |
| UserStore.UpdateUser | src/storage/user.py:65-78 | rewrites only the row with that email; with no such row nothing changes; reports `True` either way |
| UserStore.DeleteUser | src/storage/user.py:80-92 | removes only the row for that email and reports `True` whether or not it existed |
| MessageStore.Select | src/storage/message.py:42-47 | a WHERE-column query returns only matching records, and every matching record of the log |
| MessageStore.SelectCount | src/storage/message.py:42-47 | the query returns each matching record exactly as many times as the log holds it, and no other record |
| MessageStore.SelectAppend | src/storage/message.py:30-47 | querying after an insert returns the earlier answer, plus the new record when it matches |
| MessageStore.AddMessage | src/storage/message.py:27-37 | appends one record; every earlier record is kept in place |
| MessageStore.GetMessages | src/storage/message.py:39-52 | returns exactly the records whose target is the given email, each as many times as it was stored; records where it is only the source are excluded |
| MessageStore.GetMessagesAfterAdd | src/storage/message.py:27-47 | a read after a send sees the previous mailbox, plus the new message when it is addressed to that mailbox |
| MessageStore.GetMessagesBySource | src/app.py:286-302 | the query by sender that the "sent" endpoint needs: exactly the records whose source is the email, each as many times as it was stored |
| UserService.AddUser | src/service/user.py:13-21 | stores `User(email, cypher_password(password), nickname)`, never the raw password; an existing email keeps its record; the table invariant is preserved |
| UserService.GetUser | src/service/user.py:23-31 | returns exactly what the store holds for that email, or `None` |
| UserService.GetAllUsers | src/service/user.py:33-38 | returns every stored user once |
| UserService.UpdateUser | src/service/user.py:40-47 | re-derives the verifier from the new password and replaces the nickname of that email's row only; `True` even for an absent email |
| UserService.DeleteUser | src/service/user.py:49-54 | afterwards the email is unknown and every other lookup is unchanged; `True` even for an absent email |
| AuthService.Authenticate | src/service/auth.py:11-25 | `None` for an unknown email or a non-matching verifier; otherwise the token for that email and the stored verifier |
| AuthService.ValidateToken | src/service/auth.py:27-42 | true exactly when the email is registered and the token equals the one recomputed from the stored row |
| AuthService.IssuedTokenValidates | src/service/auth.py:21-37 | a token from a successful authentication validates for its email while the verifier is unchanged |
| AuthService.TokenValidatesForOneEmail | src/service/auth.py:35-37 | a token validates for at most one email |
| AuthService.IssuedTokenValidatesOnlyForOwner | src/service/auth.py:21-37 | an issued token validates for its own email and for no other |
| AuthService.PasswordChangeRevokesToken | src/service/auth.py:29-37 | after the password is changed to a different one, the old token no longer validates; other users' tokens are unaffected |
| AuthService.DeleteRevokesTokens | src/service/auth.py:29-33 | after deletion no token validates for that email |
| AuthService.TokenRevealsPassword | src/service/auth.py:35 | any valid token yields its email and the plaintext password, and that password authenticates to the same token |
| MessageService.AddMessage | src/service/message.py:13-25 | refuses, leaving the log unchanged, unless the token validates for the source; otherwise appends exactly `(source, target, message)`; the target is never checked |
| MessageService.GetMessages | src/service/message.py:27-36 | `None` unless the token validates for the target (an absent token never does); otherwise exactly the messages addressed to the target |
| MessageService.GetSentMessages | src/app.py:286-302 | a sent-messages read gated by the sender's token, returning the query by sender: each record the sender sent, as many times as it was stored |
| MessageService.CannotSendAsAnother | src/service/message.py:15-17 | a token issued to one user cannot send with another user as source |
| MessageService.CannotReadAnothersMailbox | src/service/message.py:29-31 | a token issued to one user cannot read another user's mailbox |
| App.CreateUser | src/app.py:59-97 | missing or empty field then 400; password shorter than 8 then 400; existing email then 400; otherwise the user is added and 201; only 201 changes state |
| App.CreatedPasswordsAreLong | src/app.py:75-81 | no user with a password shorter than 8 characters is created through POST /user |
| App.ListUsers | src/app.py:99-114 | an empty table answers 500; otherwise 200 listing every user's email and nickname exactly once |
| App.UpdateUser | src/app.py:116-145 | 400 for a missing field, 404 for an unknown email, otherwise the row is rewritten and 200; no length check |
| App.UpdateUserChecked | src/app.py:116-145 | corrected update: a password shorter than 8 is refused with 400, so every stored password stays at least 8 characters |
| App.UpdateAcceptsShortPassword | src/app.py:116-145 | as written, updating a registered user with the password `short` succeeds and stores it |
| App.DeleteUser | src/app.py:147-164 | 404 for an unknown email, otherwise the row is removed and 200 |
| App.GetUser | src/app.py:167-183 | 404 for an unknown email, otherwise 200 with the stored email and nickname |
| App.Authenticate | src/app.py:185-214 | 400 when email or password is missing, 401 when no token is issued, otherwise 200 with the issued token |
| App.SendMessage | src/app.py:216-248 | 400 when any of token, source, target or message is missing; 500 (not 401) when the token is refused; otherwise 201 with exactly one record appended |
| App.GetMessages | src/app.py:250-266 | 500 for a refused token and for an empty mailbox; otherwise 200 listing the sender and text of every message addressed to the email |
| App.GetAllMessages | src/app.py:268-284 | answers exactly as GET /message/<email> does |
| App.GetSentMessages | src/app.py:286-302 | the same target-filtered query: it lists messages the email received, each showing the email itself as target |
| App.GetSentMessagesBySource | src/app.py:286-302 | corrected "sent" endpoint: 200 lists the (target, text) of every record the email sent, one entry per stored record, and a pair appears exactly when the email sent that text to that target |
| App.SentEndpointOmitsSentMessage | src/app.py:286-302 | as written, after a user with an empty inbox sends a message, their "sent" read answers 500, while the corrected endpoint lists the message |
| App.LoginThenSend | src/app.py:185-248 | after a successful login the token sends as its owner (201) and is refused as anyone else (500, no change) |
| App.PasswordChangeLocksOutOldToken | src/app.py:116-145 | after a password change the token from an earlier login can neither send nor read |
| App.Handle | src/app.py:59-302 | across all routes the log only grows, by one record and only on a successful send; users change only through the user routes; the table invariant is kept |

## Left out

- Flask routing, JSON parsing and response shaping are not modelled. Request fields are optional strings, and a response is a status code plus an abstract body.
- The `time` and `elapsed` fields and every `datetime.now()` call are left out, because they read the wall clock.
- Logging calls and the logging configuration are left out. They are side effects only.
- SQLite connections, cursors, commits and `CREATE TABLE` are left out. The tables are a `map` and a `seq`.
- Storage and service `except` paths are left out. These are a `sqlite3.Error` other than the duplicate-key insert, and the generic `except Exception` in the services. They depend on the database failing, which the model does not represent.
- The `None` returned by `cypher_password` and `create_token` on an encoding error is left out. That path needs a lone surrogate in a Python string, and a Dafny `char` is always a Unicode scalar value.
- JSON fields of a non-string type are left out. For example, a numeric password would make `len` raise and give a server error.
- A request body that is not JSON is left out.
- Concurrency and `check_same_thread=False` are left out.
- The `when` timestamp and `__str__` of the message record are left out, because they read the wall clock.
- Message order follows the log. SQLite's SELECT without ORDER BY promises no order, and in practice returns insertion order.
- Users.Hash: Python's salted string hash is a parameter rather than a fixed function.
- Users.DisplayIgnoresPassword: states that the text form does not depend on the password, rather than that the password never occurs in it. The password may coincide with part of the email or nickname.

## Findings

| source | as written | input that shows it | evidently intended | confidence | as-written member | corrected member |
|---|---|---|---|---|---|---|
| src/app.py:286-302 | GET /message/sent/<email> runs the same target-filtered query as the inbox, so it lists messages the email received | a registered user with an empty inbox sends "hi" to another user, then reads their own "sent" messages: 500 | list messages whose source is the email (requirement at src/app.py:18; the response shows each message's `target`) | medium; not executed | App.SentEndpointOmitsSentMessage | App.GetSentMessagesBySource |
| src/app.py:116-145 | PUT /user/<email> has no minimum-length check | PUT /user/<registered email> with password "short": 200, and the stored verifier decodes to "short" | the 8-character rule of POST /user (src/app.py:26, src/app.py:75-81) applies to updates too | medium; not executed | App.UpdateAcceptsShortPassword | App.UpdateUserChecked |
