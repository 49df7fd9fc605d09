/**
  `MessageStorage` (src/storage/message.py): the `messages` table as an
  append-only log. Nothing checks that source or target are registered users.
 */
module MessageStore {
  import opened Messages

  type MessageLog = seq<Message>

  /** The column a query filters on. */
  datatype Column = Source | Target

  function Field(m: Message, column: Column): string {
    match column
    case Source => m.source
    case Target => m.target
  }

  /**
    `SELECT ... WHERE <column> = ?` over the log: the records whose column
    equals `email`, each as often as it was stored, in log order.
   */
  function Select(log: MessageLog, column: Column, email: string): (r: MessageLog)
    ensures |r| <= |log|
    ensures forall i :: 0 <= i < |r| ==> Field(r[i], column) == email
    ensures forall m :: m in r <==> m in log && Field(m, column) == email
    ensures multiset(r) <= multiset(log)
    decreases |log|
  {
    if |log| == 0 then []
    else
      var rest := Select(log[1..], column, email);
      assert log == [log[0]] + log[1..];
      if Field(log[0], column) == email then [log[0]] + rest else rest
  }

  /** Each matching record is selected exactly as many times as the log holds it. */
  lemma {:induction false} SelectCount(log: MessageLog, column: Column, email: string)
    ensures forall m :: multiset(Select(log, column, email))[m]
                     == if Field(m, column) == email then multiset(log)[m] else 0
    decreases |log|
  {
    if |log| > 0 {
      SelectCount(log[1..], column, email);
      assert log == [log[0]] + log[1..];
      assert multiset(log) == multiset([log[0]]) + multiset(log[1..]);
    }
  }

  /** Selecting over an appended record adds that record exactly when it matches. */
  lemma {:induction false} SelectAppend(log: MessageLog, m: Message, column: Column, email: string)
    ensures Select(log + [m], column, email)
         == Select(log, column, email) + (if Field(m, column) == email then [m] else [])
    decreases |log|
  {
    if |log| == 0 {
      assert log + [m] == [m];
    } else {
      assert (log + [m])[0] == log[0];
      assert (log + [m])[1..] == log[1..] + [m];
      SelectAppend(log[1..], m, column, email);
    }
  }

  /** `add_message`: one INSERT; the earlier records stay as they were. */
  function AddMessage(log: MessageLog, m: Message): (log': MessageLog)
    ensures |log'| == |log| + 1
    ensures log'[..|log|] == log
    ensures log'[|log|] == m
  {
    log + [m]
  }

  /**
    `get_messages`: the records addressed to `target`. Records in which
    `target` is only the source are not returned.
   */
  function GetMessages(log: MessageLog, target: string): (r: MessageLog)
    ensures forall m :: m in r <==> m in log && m.target == target
    ensures forall m :: multiset(r)[m] == if m.target == target then multiset(log)[m] else 0
    ensures forall i :: 0 <= i < |r| ==> r[i].target == target
  {
    SelectCount(log, Target, target);
    Select(log, Target, target)
  }

  /** Reading after a write sees exactly the earlier result, plus the new record if addressed there. */
  lemma GetMessagesAfterAdd(log: MessageLog, m: Message, target: string)
    ensures GetMessages(AddMessage(log, m), target)
         == GetMessages(log, target) + (if m.target == target then [m] else [])
  {
    SelectAppend(log, m, Target, target);
  }

  /**
    The query by sender that the storage layer lacks; only the corrected
    "sent" endpoint in App uses it.
   */
  function GetMessagesBySource(log: MessageLog, source: string): (r: MessageLog)
    ensures forall m :: m in r <==> m in log && m.source == source
    ensures forall m :: multiset(r)[m] == if m.source == source then multiset(log)[m] else 0
    ensures forall i :: 0 <= i < |r| ==> r[i].source == source
  {
    SelectCount(log, Source, source);
    Select(log, Source, source)
  }
}
