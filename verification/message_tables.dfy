/** The conversations and messages tables and the operations on them. */
module MessageTables {
  import opened Basics

  type Bytes = seq<bv8>

  datatype Direction = Received | Sent
  datatype DeliveryStatus = Pending | Dispatched | Delivered | Failed

  datatype Message = Message(conversation: nat, direction: Direction, timestamp: int, content: Bytes,
                             status: DeliveryStatus, wasPrekey: bool, sessionEstablished: bool)

  datatype Conversation = Conversation(fingerprint: string, lastTimestamp: int, unread: nat, archived: bool)

  /** The tables.  Row ids are AUTOINCREMENT, so the largest id ever used is remembered; whether
      the engine enforces foreign keys is a build setting of SQLite. */
  datatype Tables = Tables(foreignKeys: bool, contacts: set<string>,
                           conversations: map<nat, Conversation>, lastConversationId: nat,
                           messages: map<nat, Message>, lastMessageId: nat)

  /** A message joined with its conversation. */
  datatype StoredMessage = StoredMessage(id: nat, fingerprint: string, message: Message)

  datatype Op =
    | AddContact(fingerprint: string)
    | Incoming(fingerprint: string, timestamp: int, content: Bytes, wasPrekey: bool, established: bool)
    | Outgoing(fingerprint: string, timestamp: int, content: Bytes)
    | SetStatus(id: nat, status: DeliveryStatus)
    | MarkRead(fingerprint: string)
    | MarkReadUpTo(fingerprint: string, upTo: int)
    | DeleteMessage(id: nat)
    | DeleteConversation(fingerprint: string)
    | Archive(fingerprint: string, archived: bool)

  // ------------------------------------------------------------------ what the tables keep

  ghost predicate UniqueFingerprints(conversations: map<nat, Conversation>) {
    forall c, d | c in conversations && d in conversations &&
      conversations[c].fingerprint == conversations[d].fingerprint :: c == d
  }

  ghost predicate WellFormed(t: Tables) {
    && UniqueFingerprints(t.conversations)
    && (forall m | m in t.messages :: t.messages[m].conversation in t.conversations)
    && (forall c | c in t.conversations :: 1 <= c <= t.lastConversationId)
    && (forall m | m in t.messages :: 1 <= m <= t.lastMessageId)
    && (t.foreignKeys ==> forall c | c in t.conversations :: t.conversations[c].fingerprint in t.contacts)
  }

  // ------------------------------------------------------------------ queries

  predicate HasConversation(t: Tables, fingerprint: string) {
    exists c | c in t.conversations :: t.conversations[c].fingerprint == fingerprint
  }

  function ConversationOf(t: Tables, fingerprint: string): (c: nat)
    requires UniqueFingerprints(t.conversations) && HasConversation(t, fingerprint)
    ensures c in t.conversations && t.conversations[c].fingerprint == fingerprint
  {
    var c :| c in t.conversations && t.conversations[c].fingerprint == fingerprint;
    c
  }

  function MessagesOf(t: Tables, c: nat): set<nat> {
    set m | m in t.messages && t.messages[m].conversation == c
  }

  function ReceivedAfter(t: Tables, c: nat, upTo: int): set<nat> {
    set m | m in t.messages && t.messages[m].conversation == c && t.messages[m].direction.Received? &&
            t.messages[m].timestamp > upTo
  }

  function Joined(t: Tables, id: nat): Result<StoredMessage> {
    if id in t.messages && t.messages[id].conversation in t.conversations then
      Success(StoredMessage(id, t.conversations[t.messages[id].conversation].fingerprint, t.messages[id]))
    else Failure(NoRow)
  }

  // ------------------------------------------------------------------ what each operation does

  /** The conversation of a contact, created if need be. */
  function Opened(t: Tables, fingerprint: string): Result<(Tables, nat)>
    requires WellFormed(t)
  {
    if HasConversation(t, fingerprint) then Success((t, ConversationOf(t, fingerprint)))
    else if t.foreignKeys && fingerprint !in t.contacts then Failure(ForeignKey)
    else Success((Created(t, fingerprint), t.lastConversationId + 1))
  }

  function Created(t: Tables, fingerprint: string): Tables {
    var c := t.lastConversationId + 1;
    t.(conversations := t.conversations[c := Conversation(fingerprint, 0, 0, false)], lastConversationId := c)
  }

  /** Appends a message and touches its conversation. */
  function Stored(t: Tables, message: Message, increment: nat): (Tables, nat)
    requires message.conversation in t.conversations
  {
    var id, c := t.lastMessageId + 1, message.conversation;
    var row := t.conversations[c];
    (t.(messages := t.messages[id := message], lastMessageId := id,
        conversations := t.conversations[c := row.(lastTimestamp := message.timestamp,
                                                   unread := row.unread + increment)]), id)
  }

  function IncomingStored(t: Tables, fingerprint: string, timestamp: int, content: Bytes,
                          wasPrekey: bool, established: bool): Result<(Tables, nat)>
    requires WellFormed(t)
  {
    match Opened(t, fingerprint)
    case Failure(e) => Failure(e)
    case Success((t', c)) =>
      Success(Stored(t', Message(c, Received, timestamp, content, Pending, wasPrekey, established), 1))
  }

  function OutgoingStored(t: Tables, fingerprint: string, timestamp: int, content: Bytes): Result<(Tables, nat)>
    requires WellFormed(t)
  {
    match Opened(t, fingerprint)
    case Failure(e) => Failure(e)
    case Success((t', c)) =>
      Success(Stored(t', Message(c, Sent, timestamp, content, Pending, false, false), 0))
  }

  function WithConversation(t: Tables, c: nat, row: Conversation): Tables {
    t.(conversations := t.conversations[c := row])
  }

  function MarkedRead(t: Tables, fingerprint: string): Tables
    requires WellFormed(t)
  {
    if !HasConversation(t, fingerprint) then t
    else
      var c := ConversationOf(t, fingerprint);
      WithConversation(t, c, t.conversations[c].(unread := 0))
  }

  function MarkedReadUpTo(t: Tables, fingerprint: string, upTo: int): Result<Tables>
    requires WellFormed(t)
  {
    if !HasConversation(t, fingerprint) then Failure(NoRow)
    else
      var c := ConversationOf(t, fingerprint);
      Success(WithConversation(t, c, t.conversations[c].(unread := |ReceivedAfter(t, c, upTo)|)))
  }

  function ConversationDeleted(t: Tables, fingerprint: string): Tables
    requires WellFormed(t)
  {
    if !HasConversation(t, fingerprint) then t
    else
      Dropped(t, ConversationOf(t, fingerprint))
  }

  /** A conversation's messages go first, then its row. */
  function Dropped(t: Tables, c: nat): Tables {
    t.(messages := t.messages - MessagesOf(t, c), conversations := t.conversations - {c})
  }

  function Archived(t: Tables, fingerprint: string, archived: bool): Tables
    requires WellFormed(t)
  {
    if !HasConversation(t, fingerprint) then t
    else
      var c := ConversationOf(t, fingerprint);
      WithConversation(t, c, t.conversations[c].(archived := archived))
  }

  function StatusSet(t: Tables, id: nat, status: DeliveryStatus): Tables {
    if id in t.messages then t.(messages := t.messages[id := t.messages[id].(status := status)]) else t
  }

  /** The tables after an operation; a failed one leaves them as they were. */
  function Apply(t: Tables, op: Op): Tables
    requires WellFormed(t)
  {
    match op
    case AddContact(fp) => t.(contacts := t.contacts + {fp})
    case Incoming(fp, ts, content, pre, est) =>
      (match IncomingStored(t, fp, ts, content, pre, est) case Success((t', _)) => t' case Failure(_) => t)
    case Outgoing(fp, ts, content) =>
      (match OutgoingStored(t, fp, ts, content) case Success((t', _)) => t' case Failure(_) => t)
    case SetStatus(id, status) => StatusSet(t, id, status)
    case MarkRead(fp) => MarkedRead(t, fp)
    case MarkReadUpTo(fp, upTo) =>
      (match MarkedReadUpTo(t, fp, upTo) case Success(t') => t' case Failure(_) => t)
    case DeleteMessage(id) => t.(messages := t.messages - {id})
    case DeleteConversation(fp) => ConversationDeleted(t, fp)
    case Archive(fp, archived) => Archived(t, fp, archived)
  }

  // ------------------------------------------------------------------ well-formedness is kept

  lemma OpenedWellFormed(t: Tables, fingerprint: string)
    requires WellFormed(t)
    ensures match Opened(t, fingerprint)
      case Success((t', c)) =>
        && WellFormed(t') && c in t'.conversations && t'.conversations[c].fingerprint == fingerprint
        && t'.messages == t.messages && t'.lastMessageId == t.lastMessageId
        && (forall d | d in t.conversations :: d in t'.conversations && t'.conversations[d] == t.conversations[d])
        && t'.conversations.Keys == t.conversations.Keys + {c}
      case Failure(_) => t.foreignKeys && fingerprint !in t.contacts && !HasConversation(t, fingerprint)
  {
  }

  lemma StoredWellFormed(t: Tables, message: Message, increment: nat)
    requires WellFormed(t) && message.conversation in t.conversations
    ensures WellFormed(Stored(t, message, increment).0)
  {
  }

  lemma WithConversationWellFormed(t: Tables, c: nat, row: Conversation)
    requires WellFormed(t) && c in t.conversations && row.fingerprint == t.conversations[c].fingerprint
    ensures WellFormed(WithConversation(t, c, row))
  {
  }

  /** The row an arrival adds to conversation `c`, and what it adds to the unread counter. */
  function Arriving(op: Op, c: nat): Message
    requires op.Incoming? || op.Outgoing?
  {
    match op
    case Incoming(_, ts, content, pre, est) => Message(c, Received, ts, content, Pending, pre, est)
    case Outgoing(_, ts, content) => Message(c, Sent, ts, content, Pending, false, false)
  }

  function Increment(op: Op): nat {
    if op.Incoming? then 1 else 0
  }

  /** Both kinds of arrival open the conversation and store a row in it. */
  lemma ArrivalApplied(t: Tables, op: Op)
    requires WellFormed(t) && (op.Incoming? || op.Outgoing?)
    ensures match Opened(t, op.fingerprint)
      case Success((t', c)) =>
        && WellFormed(t') && c in t'.conversations
        && Apply(t, op) == Stored(t', Arriving(op, c), Increment(op)).0
        && WellFormed(Apply(t, op))
      case Failure(_) => Apply(t, op) == t
  {
    OpenedWellFormed(t, op.fingerprint);
    if Opened(t, op.fingerprint).Success? {
      var (t', c) := Opened(t, op.fingerprint).value;
      StoredWellFormed(t', Arriving(op, c), Increment(op));
    }
  }

  ghost predicate NoConversation(t: Tables, fingerprint: string) {
    forall c | c in t.conversations :: t.conversations[c].fingerprint != fingerprint
  }

  /** Looking up the id finds a message with exactly these fields. */
  ghost predicate Reads(t: Tables, id: nat, fingerprint: string, direction: Direction, timestamp: int, content: Bytes,
                        status: DeliveryStatus, wasPrekey: bool, established: bool)
  {
    && Joined(t, id).Success?
    && var found := Joined(t, id).value;
       && found.id == id && found.fingerprint == fingerprint
       && found.message.direction == direction && found.message.timestamp == timestamp
       && found.message.content == content && found.message.status == status
       && found.message.wasPrekey == wasPrekey && found.message.sessionEstablished == established
  }

  /** What an operation answers to its caller: the id of a stored message, or none. */
  function Answered(t: Tables, op: Op): Option<nat>
    requires WellFormed(t)
  {
    match op
    case Incoming(fp, ts, content, pre, est) =>
      (match IncomingStored(t, fp, ts, content, pre, est) case Success((_, id)) => Some(id) case Failure(_) => None)
    case Outgoing(fp, ts, content) =>
      (match OutgoingStored(t, fp, ts, content) case Success((_, id)) => Some(id) case Failure(_) => None)
    case _ => None
  }

  /** Foreign keys are enforced and the contact is unknown and has no conversation. */
  ghost predicate Refused(t: Tables, fingerprint: string) {
    t.foreignKeys && fingerprint !in t.contacts && NoConversation(t, fingerprint)
  }

  /** The id names a message added by the operation, under an id above any used before. */
  ghost predicate IsNewId(t: Tables, t': Tables, id: nat) {
    && id > t.lastMessageId && t'.lastMessageId == id
    && id !in t.messages && t'.messages.Keys == t.messages.Keys + {id}
    && forall m | m in t.messages :: t'.messages[m] == t.messages[m]
  }

  lemma StoredAnswer(t: Tables, message: Message, increment: nat, fingerprint: string)
    requires WellFormed(t) && message.conversation in t.conversations
    requires fingerprint == t.conversations[message.conversation].fingerprint
    ensures var (t', id) := Stored(t, message, increment);
      IsNewId(t, t', id) && Joined(t', id) == Success(StoredMessage(id, fingerprint, message))
  {
  }

  /** What storing a message answers: an id above every id used before, by which the message is
      found as it was given, or a refusal exactly of an unknown contact under enforced foreign
      keys, which changes nothing. */
  lemma AnswerReadsBack(t: Tables, op: Op)
    requires WellFormed(t) && (op.Incoming? || op.Outgoing?)
    ensures Answered(t, op).None? <==> Refused(t, op.fingerprint)
    ensures Answered(t, op).None? ==> Apply(t, op) == t
    ensures Answered(t, op).Some? ==> IsNewId(t, Apply(t, op), Answered(t, op).value)
    ensures Answered(t, op).Some? && op.Incoming? ==>
      Reads(Apply(t, op), Answered(t, op).value, op.fingerprint, Received, op.timestamp, op.content, Pending,
            op.wasPrekey, op.established)
    ensures Answered(t, op).Some? && op.Outgoing? ==>
      Reads(Apply(t, op), Answered(t, op).value, op.fingerprint, Sent, op.timestamp, op.content, Pending, false, false)
  {
    OpenedWellFormed(t, op.fingerprint);
    if Opened(t, op.fingerprint).Success? {
      var (t', c) := Opened(t, op.fingerprint).value;
      StoredAnswer(t', Arriving(op, c), Increment(op), op.fingerprint);
      assert HasConversation(t, op.fingerprint) || !Refused(t, op.fingerprint);
    }
  }

  /** Every operation keeps fingerprints unique, every message in an existing conversation, and
      ids within what the counters have handed out. */
  lemma ApplyWellFormed(t: Tables, op: Op)
    requires WellFormed(t)
    ensures WellFormed(Apply(t, op))
    ensures Apply(t, op).lastMessageId >= t.lastMessageId && Apply(t, op).lastConversationId >= t.lastConversationId
  {
    match op
    case Incoming(fp, _, _, _, _) => ArrivalApplied(t, op); OpenedWellFormed(t, fp);
    case Outgoing(fp, _, _) => ArrivalApplied(t, op); OpenedWellFormed(t, fp);
    case MarkRead(fp) =>
      if HasConversation(t, fp) {
        var c := ConversationOf(t, fp);
        WithConversationWellFormed(t, c, t.conversations[c].(unread := 0));
      }
    case MarkReadUpTo(fp, upTo) =>
      if HasConversation(t, fp) {
        var c := ConversationOf(t, fp);
        WithConversationWellFormed(t, c, t.conversations[c].(unread := |ReceivedAfter(t, c, upTo)|));
      }
    case Archive(fp, archived) =>
      if HasConversation(t, fp) {
        var c := ConversationOf(t, fp);
        WithConversationWellFormed(t, c, t.conversations[c].(archived := archived));
      }
    case _ =>
  }

  function Run(t: Tables, ops: seq<Op>): (end: Tables)
    requires WellFormed(t)
    ensures WellFormed(end)
    decreases |ops|
  {
    if ops == [] then t
    else
      ApplyWellFormed(t, ops[0]);
      Run(Apply(t, ops[0]), ops[1..])
  }

  lemma {:induction false} RunSnoc(t: Tables, ops: seq<Op>, op: Op)
    requires WellFormed(t)
    ensures Run(t, ops + [op]) == Apply(Run(t, ops), op)
    decreases |ops|
  {
    if ops == [] {
      assert [] + [op] == [op] && [op][1..] == [];
    } else {
      ApplyWellFormed(t, ops[0]);
      assert (ops + [op])[0] == ops[0] && (ops + [op])[1..] == ops[1..] + [op];
      RunSnoc(Apply(t, ops[0]), ops[1..], op);
    }
  }

  /** The tables of a new database. */
  function Fresh(foreignKeys: bool): (t: Tables)
    ensures WellFormed(t)
  {
    Tables(foreignKeys, {}, map[], 0, map[], 0)
  }

  // ------------------------------------------------------------------ the object

  /** The message tables behind a connection. */
  class MessageHistory {
    const foreignKeys: bool
    var contacts: set<string>
    var conversations: map<nat, Conversation>
    var lastConversationId: nat
    var messages: map<nat, Message>
    var lastMessageId: nat

    ghost function State(): Tables
      reads this
    {
      Tables(foreignKeys, contacts, conversations, lastConversationId, messages, lastMessageId)
    }

    ghost predicate Valid()
      reads this
    {
      WellFormed(State())
    }

    constructor (foreignKeys: bool)
      ensures Valid() && State() == Tables(foreignKeys, {}, map[], 0, map[], 0)
    {
      this.foreignKeys := foreignKeys;
      contacts, conversations, messages, lastConversationId, lastMessageId := {}, map[], map[], 0, 0;
    }

    method SelectConversation(fingerprint: string) returns (r: Option<nat>)
      requires Valid()
      ensures r == if HasConversation(State(), fingerprint) then Some(ConversationOf(State(), fingerprint)) else None
    {
      if c :| c in conversations && conversations[c].fingerprint == fingerprint {
        r := Some(c);
      } else {
        r := None;
      }
    }

    method GetOrCreateConversation(fingerprint: string) returns (r: Result<nat>)
      requires Valid()
      modifies this`conversations, this`lastConversationId
      ensures Valid()
      ensures match Opened(old(State()), fingerprint)
              case Success((t, c)) => State() == t && r == Success(c)
              case Failure(e) => State() == old(State()) && r == Failure(e)
    {
      OpenedWellFormed(State(), fingerprint);
      var found := SelectConversation(fingerprint);
      if found.Some? {
        return Success(found.value);
      }
      if foreignKeys && fingerprint !in contacts {
        return Failure(ForeignKey);
      }
      lastConversationId := lastConversationId + 1;
      conversations := conversations[lastConversationId := Conversation(fingerprint, 0, 0, false)];
      r := Success(lastConversationId);
    }

    method InsertMessage(message: Message) returns (id: nat)
      modifies this`messages, this`lastMessageId
      ensures id == old(lastMessageId) + 1 == lastMessageId && messages == old(messages)[id := message]
    {
      lastMessageId := lastMessageId + 1;
      messages := messages[lastMessageId := message];
      id := lastMessageId;
    }

    method UpdateConversation(c: nat, timestamp: int, incrementUnread: bool)
      requires c in conversations
      modifies this`conversations
      ensures conversations == old(conversations)[c := old(conversations)[c].(lastTimestamp := timestamp,
        unread := old(conversations)[c].unread + if incrementUnread then 1 else 0)]
    {
      var row := conversations[c].(lastTimestamp := timestamp);
      if incrementUnread {
        row := row.(unread := row.unread + 1);
      }
      conversations := conversations[c := row];
    }

    /** The two statements every stored message takes: insert the row, touch the conversation. */
    method Append(message: Message, incrementUnread: bool) returns (id: nat)
      requires Valid() && message.conversation in conversations
      modifies this`messages, this`lastMessageId, this`conversations
      ensures Valid()
      ensures (State(), id) == Stored(old(State()), message, if incrementUnread then 1 else 0)
    {
      StoredWellFormed(State(), message, if incrementUnread then 1 else 0);
      id := InsertMessage(message);
      UpdateConversation(message.conversation, message.timestamp, incrementUnread);
    }

    method StoreIncomingMessage(fingerprint: string, timestamp: int, content: Bytes,
                                wasPrekey: bool, established: bool) returns (r: Result<nat>)
      requires Valid()
      modifies this
      ensures Valid()
      ensures match IncomingStored(old(State()), fingerprint, timestamp, content, wasPrekey, established)
              case Success((t, id)) => State() == t && r == Success(id)
              case Failure(e) => State() == old(State()) && r == Failure(e)
      ensures r.Success? ==> IsNewId(old(State()), State(), r.value)
      ensures r.Success? ==> Reads(State(), r.value, fingerprint, Received, timestamp, content, Pending, wasPrekey, established)
      ensures r.Failure? <==> Refused(old(State()), fingerprint)
      ensures r.Failure? ==> r.error == ForeignKey
    {
      AnswerReadsBack(State(), Incoming(fingerprint, timestamp, content, wasPrekey, established));
      ApplyWellFormed(State(), Incoming(fingerprint, timestamp, content, wasPrekey, established));
      OpenedWellFormed(State(), fingerprint);
      var conversation := GetOrCreateConversation(fingerprint);
      if conversation.Failure? {
        return Failure(conversation.error);
      }
      var id := Append(Message(conversation.value, Received, timestamp, content, Pending, wasPrekey, established),
                       true);
      r := Success(id);
    }

    method StoreOutgoingMessage(fingerprint: string, timestamp: int, content: Bytes) returns (r: Result<nat>)
      requires Valid()
      modifies this
      ensures Valid()
      ensures match OutgoingStored(old(State()), fingerprint, timestamp, content)
              case Success((t, id)) => State() == t && r == Success(id)
              case Failure(e) => State() == old(State()) && r == Failure(e)
      ensures r.Success? ==> IsNewId(old(State()), State(), r.value)
      ensures r.Success? ==> Reads(State(), r.value, fingerprint, Sent, timestamp, content, Pending, false, false)
      ensures r.Failure? <==> Refused(old(State()), fingerprint)
      ensures r.Failure? ==> r.error == ForeignKey
    {
      AnswerReadsBack(State(), Outgoing(fingerprint, timestamp, content));
      ApplyWellFormed(State(), Outgoing(fingerprint, timestamp, content));
      OpenedWellFormed(State(), fingerprint);
      var conversation := GetOrCreateConversation(fingerprint);
      if conversation.Failure? {
        return Failure(conversation.error);
      }
      var id := Append(Message(conversation.value, Sent, timestamp, content, Pending, false, false), false);
      r := Success(id);
    }

    method MarkConversationRead(fingerprint: string)
      requires Valid()
      modifies this
      ensures Valid() && State() == MarkedRead(old(State()), fingerprint)
    {
      ApplyWellFormed(State(), MarkRead(fingerprint));
      var found := SelectConversation(fingerprint);
      if found.Some? {
        conversations := conversations[found.value := conversations[found.value].(unread := 0)];
      }
    }

    method MarkConversationReadUpTo(fingerprint: string, upTo: int) returns (r: Result<()>)
      requires Valid()
      modifies this
      ensures Valid()
      ensures match MarkedReadUpTo(old(State()), fingerprint, upTo)
              case Success(t) => State() == t && r == Success(())
              case Failure(e) => State() == old(State()) && r == Failure(e)
      ensures r == if NoConversation(old(State()), fingerprint) then Failure(NoRow) else Success(())
    {
      ApplyWellFormed(State(), MarkReadUpTo(fingerprint, upTo));
      var found := SelectConversation(fingerprint);
      if found.None? {
        return Failure(NoRow);
      }
      var c := found.value;
      var counted := set m | m in messages && messages[m].conversation == c && messages[m].direction.Received? &&
                             messages[m].timestamp > upTo;
      assert counted == ReceivedAfter(State(), c, upTo);
      conversations := conversations[c := conversations[c].(unread := |counted|)];
      r := Success(());
    }

    method UpdateDeliveryStatus(id: nat, status: DeliveryStatus)
      requires Valid()
      modifies this
      ensures Valid() && State() == StatusSet(old(State()), id, status)
    {
      if id in messages {
        messages := messages[id := messages[id].(status := status)];
      }
    }

    method RemoveMessage(id: nat)
      requires Valid()
      modifies this
      ensures Valid() && State() == Apply(old(State()), DeleteMessage(id))
    {
      messages := messages - {id};
    }

    method RemoveConversation(fingerprint: string)
      requires Valid()
      modifies this
      ensures Valid() && State() == ConversationDeleted(old(State()), fingerprint)
    {
      ApplyWellFormed(State(), DeleteConversation(fingerprint));
      var found := SelectConversation(fingerprint);
      if found.Some? {
        var doomed := set m | m in messages && messages[m].conversation == found.value;
        assert doomed == MessagesOf(State(), found.value);
        messages := messages - doomed;
        conversations := conversations - {found.value};
      }
    }

    method ArchiveConversation(fingerprint: string, archived: bool)
      requires Valid()
      modifies this
      ensures Valid() && State() == Archived(old(State()), fingerprint, archived)
    {
      ApplyWellFormed(State(), Archive(fingerprint, archived));
      var found := SelectConversation(fingerprint);
      if found.Some? {
        conversations := conversations[found.value := conversations[found.value].(archived := archived)];
      }
    }

    method GetMessage(id: nat) returns (r: Result<StoredMessage>)
      requires Valid()
      ensures r == Joined(State(), id)
      ensures r.Success? <==> id in messages
    {
      if id in messages {
        r := Success(StoredMessage(id, conversations[messages[id].conversation].fingerprint, messages[id]));
      } else {
        r := Failure(NoRow);
      }
    }

    /** The stored count is cast to 32 bits on the way out. */
    method GetUnreadCount(fingerprint: string) returns (n: u32)
      requires Valid()
      ensures !HasConversation(State(), fingerprint) ==> n == 0
      ensures HasConversation(State(), fingerprint) ==>
        n == conversations[ConversationOf(State(), fingerprint)].unread % (U32_MAX + 1)
    {
      var found := SelectConversation(fingerprint);
      n := 0;
      if found.Some? {
        n := conversations[found.value].unread % (U32_MAX + 1);
      }
    }
  }
}
