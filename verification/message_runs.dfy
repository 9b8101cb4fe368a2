/** What holds of the message tables after any sequence of operations. */
module MessageRuns {
  import opened Basics
  import opened MessageTables

  // ================================================================== marking and arrivals

  /** The operations that neither read nor write what a mark of this conversation depends on: the
      mark and such an operation can be done in either order. */
  predicate Independent(op: Op, fingerprint: string, upTo: int) {
    match op
    case Incoming(fp, timestamp, _, _, _) => fp == fingerprint ==> timestamp > upTo
    case MarkRead(fp) => fp != fingerprint
    case MarkReadUpTo(fp, _) => fp != fingerprint
    case DeleteConversation(fp) => fp != fingerprint
    case DeleteMessage(_) => false
    case _ => true
  }

  /** Marking a conversation by its id. */
  function MarkedAt(t: Tables, c: nat, upTo: int): Tables
    requires c in t.conversations
  {
    WithConversation(t, c, t.conversations[c].(unread := |ReceivedAfter(t, c, upTo)|))
  }

  /** A row id stays with its fingerprint. */
  lemma FoundById(t: Tables, fingerprint: string, c: nat)
    requires UniqueFingerprints(t.conversations)
    requires c in t.conversations && t.conversations[c].fingerprint == fingerprint
    ensures HasConversation(t, fingerprint) && ConversationOf(t, fingerprint) == c
  {
  }

  lemma MarkIsMarkedAt(t: Tables, fingerprint: string, upTo: int, c: nat)
    requires WellFormed(t) && c in t.conversations && t.conversations[c].fingerprint == fingerprint
    ensures Apply(t, MarkReadUpTo(fingerprint, upTo)) == MarkedAt(t, c, upTo)
    ensures WellFormed(MarkedAt(t, c, upTo))
  {
  }

  /** Whether a message counts as unread after a mark up to `upTo`. */
  predicate CountsAfter(message: Message, upTo: int) {
    message.direction.Received? && message.timestamp > upTo
  }

  lemma StoredReceivedAfter(t: Tables, message: Message, increment: nat, c: nat, upTo: int)
    requires WellFormed(t) && message.conversation in t.conversations
    ensures |ReceivedAfter(Stored(t, message, increment).0, c, upTo)| ==
      |ReceivedAfter(t, c, upTo)| + if message.conversation == c && CountsAfter(message, upTo) then 1 else 0
  {
    var id := t.lastMessageId + 1;
    var before, after := ReceivedAfter(t, c, upTo), ReceivedAfter(Stored(t, message, increment).0, c, upTo);
    assert id !in before;
    if message.conversation == c && CountsAfter(message, upTo) {
      assert after == before + {id};
    } else {
      assert after == before;
    }
  }

  lemma StoreElsewhereCommutes(t: Tables, message: Message, increment: nat, c: nat, upTo: int)
    requires WellFormed(t) && c in t.conversations && message.conversation in t.conversations
    requires message.conversation != c
    ensures Stored(MarkedAt(t, c, upTo), message, increment).0 == MarkedAt(Stored(t, message, increment).0, c, upTo)
  {
    StoredReceivedAfter(t, message, increment, c, upTo);
    assert Stored(MarkedAt(t, c, upTo), message, increment).0.conversations ==
      MarkedAt(Stored(t, message, increment).0, c, upTo).conversations;
  }

  /** Storing a message commutes with a mark exactly when it bumps the marked conversation's
      counter by what the mark would count it for. */
  lemma StoreCommutesIff(t: Tables, message: Message, increment: nat, c: nat, upTo: int)
    requires WellFormed(t) && c in t.conversations && message.conversation in t.conversations
    ensures Stored(MarkedAt(t, c, upTo), message, increment).0 == MarkedAt(Stored(t, message, increment).0, c, upTo) <==>
      (message.conversation == c ==> increment == if CountsAfter(message, upTo) then 1 else 0)
  {
    if message.conversation == c {
      StoredReceivedAfter(t, message, increment, c, upTo);
      var left := Stored(MarkedAt(t, c, upTo), message, increment).0;
      var right := MarkedAt(Stored(t, message, increment).0, c, upTo);
      assert left == right.(conversations := left.conversations);
      RowsDifferAtMostAt(left.conversations, right.conversations, t.conversations, c);
    } else {
      StoreElsewhereCommutes(t, message, increment, c, upTo);
    }
  }

  lemma RowsDifferAtMostAt(left: map<nat, Conversation>, right: map<nat, Conversation>,
                           base: map<nat, Conversation>, c: nat)
    requires c in left && c in right && left == base[c := left[c]] && right == base[c := right[c]]
    requires left[c].(unread := 0) == right[c].(unread := 0)
    ensures left == right <==> left[c].unread == right[c].unread
  {
  }

  lemma CreateCommutes(t: Tables, c: nat, upTo: int, fingerprint: string)
    requires WellFormed(t) && c in t.conversations
    ensures c in Created(t, fingerprint).conversations
    ensures Created(MarkedAt(t, c, upTo), fingerprint) == MarkedAt(Created(t, fingerprint), c, upTo)
  {
  }

  /** A mark changes neither which fingerprints have a conversation nor which one it is. */
  lemma MarkKeepsLookups(t: Tables, c: nat, upTo: int, fingerprint: string)
    requires WellFormed(t) && c in t.conversations && WellFormed(MarkedAt(t, c, upTo))
    ensures HasConversation(MarkedAt(t, c, upTo), fingerprint) <==> HasConversation(t, fingerprint)
    ensures HasConversation(t, fingerprint) ==>
      ConversationOf(MarkedAt(t, c, upTo), fingerprint) == ConversationOf(t, fingerprint)
  {
    var m := MarkedAt(t, c, upTo);
    assert forall d | d in m.conversations :: m.conversations[d].fingerprint == t.conversations[d].fingerprint;
    if HasConversation(t, fingerprint) {
      FoundById(m, fingerprint, ConversationOf(t, fingerprint));
    }
  }

  lemma OpenCommutes(t: Tables, c: nat, upTo: int, fingerprint: string)
    requires WellFormed(t) && c in t.conversations && WellFormed(MarkedAt(t, c, upTo))
    ensures match Opened(t, fingerprint)
      case Success((t', d)) =>
        c in t'.conversations && Opened(MarkedAt(t, c, upTo), fingerprint) == Success((MarkedAt(t', c, upTo), d))
      case Failure(e) => Opened(MarkedAt(t, c, upTo), fingerprint) == Failure(e)
  {
    MarkKeepsLookups(t, c, upTo, fingerprint);
    CreateCommutes(t, c, upTo, fingerprint);
  }

  lemma ArrivalCommutes(t: Tables, c: nat, upTo: int, op: Op)
    requires WellFormed(t) && c in t.conversations && WellFormed(MarkedAt(t, c, upTo))
    requires Independent(op, t.conversations[c].fingerprint, upTo) && (op.Incoming? || op.Outgoing?)
    ensures c in Apply(t, op).conversations && Apply(MarkedAt(t, c, upTo), op) == MarkedAt(Apply(t, op), c, upTo)
  {
    ArrivalApplied(t, op);
    ArrivalApplied(MarkedAt(t, c, upTo), op);
    OpenCommutes(t, c, upTo, op.fingerprint);
    if Opened(t, op.fingerprint).Success? {
      var (t', d) := Opened(t, op.fingerprint).value;
      OpenedWellFormed(t, op.fingerprint);
      StoreCommutesIff(t', Arriving(op, d), Increment(op), c, upTo);
    }
  }

  /** Rewriting another conversation's row commutes with the mark, and so does rewriting this
      one's archived flag. */
  lemma RowCommutes(t: Tables, c: nat, upTo: int, d: nat, row: Conversation)
    requires c in t.conversations && d in t.conversations && d != c
    ensures WithConversation(MarkedAt(t, c, upTo), d, row) == MarkedAt(WithConversation(t, d, row), c, upTo)
  {
  }

  lemma FlagCommutes(t: Tables, c: nat, upTo: int, archived: bool)
    requires c in t.conversations
    ensures var m := MarkedAt(t, c, upTo);
      WithConversation(m, c, m.conversations[c].(archived := archived)) ==
      MarkedAt(WithConversation(t, c, t.conversations[c].(archived := archived)), c, upTo)
  {
  }

  lemma RewriteCommutes(t: Tables, c: nat, upTo: int, op: Op)
    requires WellFormed(t) && c in t.conversations && WellFormed(MarkedAt(t, c, upTo))
    requires Independent(op, t.conversations[c].fingerprint, upTo)
    requires op.MarkRead? || op.MarkReadUpTo? || op.Archive?
    ensures c in Apply(t, op).conversations && Apply(MarkedAt(t, c, upTo), op) == MarkedAt(Apply(t, op), c, upTo)
  {
    var m := MarkedAt(t, c, upTo);
    MarkKeepsLookups(t, c, upTo, op.fingerprint);
    if HasConversation(t, op.fingerprint) {
      var d := ConversationOf(t, op.fingerprint);
      var row := t.conversations[d];
      match op
      case MarkRead(_) => RowCommutes(t, c, upTo, d, row.(unread := 0));
      case MarkReadUpTo(_, to) =>
        assert ReceivedAfter(m, d, to) == ReceivedAfter(t, d, to);
        RowCommutes(t, c, upTo, d, row.(unread := |ReceivedAfter(t, d, to)|));
      case Archive(_, archived) =>
        if d == c {
          FlagCommutes(t, c, upTo, archived);
        } else {
          RowCommutes(t, c, upTo, d, row.(archived := archived));
        }
    }
  }

  lemma DeleteConversationCommutes(t: Tables, c: nat, upTo: int, fingerprint: string)
    requires WellFormed(t) && c in t.conversations && WellFormed(MarkedAt(t, c, upTo))
    requires fingerprint != t.conversations[c].fingerprint
    ensures c in ConversationDeleted(t, fingerprint).conversations
    ensures ConversationDeleted(MarkedAt(t, c, upTo), fingerprint) ==
      MarkedAt(ConversationDeleted(t, fingerprint), c, upTo)
  {
    MarkKeepsLookups(t, c, upTo, fingerprint);
    if HasConversation(t, fingerprint) {
      DropCommutes(t, c, upTo, ConversationOf(t, fingerprint));
    }
  }

  lemma DropCommutes(t: Tables, c: nat, upTo: int, d: nat)
    requires c in t.conversations && d != c
    ensures c in Dropped(t, d).conversations
    ensures Dropped(MarkedAt(t, c, upTo), d) == MarkedAt(Dropped(t, d), c, upTo)
  {
    assert ReceivedAfter(Dropped(t, d), c, upTo) == ReceivedAfter(t, c, upTo);
    assert MessagesOf(MarkedAt(t, c, upTo), d) == MessagesOf(t, d);
    assert Dropped(MarkedAt(t, c, upTo), d).conversations == MarkedAt(Dropped(t, d), c, upTo).conversations;
  }

  lemma StatusCommutes(t: Tables, c: nat, upTo: int, id: nat, status: DeliveryStatus)
    requires c in t.conversations
    ensures StatusSet(MarkedAt(t, c, upTo), id, status) == MarkedAt(StatusSet(t, id, status), c, upTo)
  {
    assert ReceivedAfter(StatusSet(t, id, status), c, upTo) == ReceivedAfter(t, c, upTo);
  }

  lemma AddContactCommutes(t: Tables, c: nat, upTo: int, fingerprint: string)
    requires c in t.conversations
    ensures var grown := t.contacts + {fingerprint};
      MarkedAt(t, c, upTo).(contacts := grown) == MarkedAt(t.(contacts := grown), c, upTo)
  {
    assert ReceivedAfter(t.(contacts := t.contacts + {fingerprint}), c, upTo) == ReceivedAfter(t, c, upTo);
  }

  /** A conversation outlives every operation but its own deletion, under the same fingerprint. */
  lemma ConversationKept(t: Tables, c: nat, op: Op)
    requires WellFormed(t) && c in t.conversations && op != DeleteConversation(t.conversations[c].fingerprint)
    ensures c in Apply(t, op).conversations
    ensures Apply(t, op).conversations[c].fingerprint == t.conversations[c].fingerprint
  {
    if op.Incoming? || op.Outgoing? {
      ArrivalApplied(t, op);
      OpenedWellFormed(t, op.fingerprint);
    }
  }

  lemma IndependentCommutes(t: Tables, c: nat, upTo: int, op: Op)
    requires WellFormed(t) && c in t.conversations && WellFormed(MarkedAt(t, c, upTo))
    requires Independent(op, t.conversations[c].fingerprint, upTo)
    ensures c in Apply(t, op).conversations && Apply(MarkedAt(t, c, upTo), op) == MarkedAt(Apply(t, op), c, upTo)
  {
    match op
    case AddContact(fp) => AddContactCommutes(t, c, upTo, fp);
    case Incoming(_, _, _, _, _) => ArrivalCommutes(t, c, upTo, op);
    case Outgoing(_, _, _) => ArrivalCommutes(t, c, upTo, op);
    case SetStatus(id, status) => StatusCommutes(t, c, upTo, id, status);
    case MarkRead(_) => RewriteCommutes(t, c, upTo, op);
    case MarkReadUpTo(_, _) => RewriteCommutes(t, c, upTo, op);
    case Archive(_, _) => RewriteCommutes(t, c, upTo, op);
    case DeleteConversation(fp) => DeleteConversationCommutes(t, c, upTo, fp);
  }

  /** A mark can be moved across any run of independent operations - in particular across any
      messages arriving later than its bound: the final tables do not depend on when, among
      those operations, the mark was made. */
  lemma {:induction false} MarkIsRaceTolerant(t: Tables, fingerprint: string, upTo: int, ops: seq<Op>)
    requires WellFormed(t) && HasConversation(t, fingerprint)
    requires forall op | op in ops :: Independent(op, fingerprint, upTo)
    ensures WellFormed(Apply(t, MarkReadUpTo(fingerprint, upTo)))
    ensures Run(Apply(t, MarkReadUpTo(fingerprint, upTo)), ops) == Apply(Run(t, ops), MarkReadUpTo(fingerprint, upTo))
    decreases |ops|
  {
    var mark := MarkReadUpTo(fingerprint, upTo);
    var c := ConversationOf(t, fingerprint);
    MarkIsMarkedAt(t, fingerprint, upTo, c);
    if ops != [] {
      assert ops[0] in ops && forall op | op in ops[1..] :: op in ops;
      ApplyWellFormed(t, ops[0]);
      IndependentCommutes(t, c, upTo, ops[0]);
      ConversationKept(t, c, ops[0]);
      var t' := Apply(t, ops[0]);
      FoundById(t', fingerprint, c);
      MarkIsMarkedAt(t', fingerprint, upTo, c);
      MarkIsRaceTolerant(t', fingerprint, upTo, ops[1..]);
    }
  }

  /** For one message arriving in the marked conversation the order is immaterial exactly when its
      timestamp is past the bound. */
  lemma SingleArrivalCommutesIff(t: Tables, op: Op, upTo: int)
    requires WellFormed(t) && op.Incoming? && HasConversation(t, op.fingerprint)
    ensures var mark := MarkReadUpTo(op.fingerprint, upTo);
      && WellFormed(Apply(t, mark)) && WellFormed(Apply(t, op))
      && (Apply(Apply(t, mark), op) == Apply(Apply(t, op), mark) <==> op.timestamp > upTo)
  {
    var mark := MarkReadUpTo(op.fingerprint, upTo);
    ApplyWellFormed(t, mark);
    ApplyWellFormed(t, op);
    var c := ConversationOf(t, op.fingerprint);
    MarkIsMarkedAt(t, op.fingerprint, upTo, c);
    FoundById(MarkedAt(t, c, upTo), op.fingerprint, c);
    var message := Message(c, Received, op.timestamp, op.content, Pending, op.wasPrekey, op.established);
    ArrivalApplied(t, op);
    ArrivalApplied(MarkedAt(t, c, upTo), op);
    MarkIsMarkedAt(Apply(t, op), op.fingerprint, upTo, c);
    StoreCommutesIff(t, message, 1, c, upTo);
  }

  /** Deleting a message can be swapped with the mark exactly when the mark does not count it. */
  lemma DeleteCommutesIff(t: Tables, fingerprint: string, upTo: int, id: nat)
    requires WellFormed(t) && HasConversation(t, fingerprint)
    ensures var mark, delete := MarkReadUpTo(fingerprint, upTo), DeleteMessage(id);
      && WellFormed(Apply(t, mark)) && WellFormed(Apply(t, delete))
      && (Apply(Apply(t, mark), delete) == Apply(Apply(t, delete), mark) <==>
          id !in ReceivedAfter(t, ConversationOf(t, fingerprint), upTo))
  {
    var c, t' := ConversationOf(t, fingerprint), Apply(t, DeleteMessage(id));
    MarkIsMarkedAt(t, fingerprint, upTo, c);
    ApplyWellFormed(t, DeleteMessage(id));
    MarkIsMarkedAt(t', fingerprint, upTo, c);
    var m := MarkedAt(t, c, upTo);
    var left, right := m.(messages := m.messages - {id}), MarkedAt(t', c, upTo);
    assert ReceivedAfter(t', c, upTo) == ReceivedAfter(t, c, upTo) - {id};
    assert left == right.(conversations := left.conversations);
    RowsDifferAtMostAt(left.conversations, right.conversations, t.conversations, c);
  }

  /** Marks overwrite rather than accumulate: the last bound alone decides the counter, so a
      later mark with an earlier bound makes messages count as unread again. */
  lemma LaterMarkReplacesEarlier(t: Tables, fingerprint: string, first: int, second: int)
    requires WellFormed(t) && HasConversation(t, fingerprint)
    ensures WellFormed(Apply(t, MarkReadUpTo(fingerprint, first)))
    ensures Apply(Apply(t, MarkReadUpTo(fingerprint, first)), MarkReadUpTo(fingerprint, second)) ==
      Apply(t, MarkReadUpTo(fingerprint, second))
  {
    var c := ConversationOf(t, fingerprint);
    MarkIsMarkedAt(t, fingerprint, first, c);
    MarkIsMarkedAt(t, fingerprint, second, c);
    var m := MarkedAt(t, c, first);
    FoundById(m, fingerprint, c);
    MarkIsMarkedAt(m, fingerprint, second, c);
    assert ReceivedAfter(m, c, second) == ReceivedAfter(t, c, second);
    assert MarkedAt(m, c, second).conversations == MarkedAt(t, c, second).conversations;
  }

  // ================================================================== the life of a message

  /** The operations that remove message `id` of the conversation with `fingerprint`. */
  predicate Removes(op: Op, id: nat, fingerprint: string) {
    op == DeleteMessage(id) || op == DeleteConversation(fingerprint)
  }

  /** The delivery status after the updates among `ops` that name the message. */
  function StatusAfter(was: DeliveryStatus, id: nat, ops: seq<Op>): DeliveryStatus
    decreases |ops|
  {
    if ops == [] then was
    else StatusAfter(if ops[0].SetStatus? && ops[0].id == id then ops[0].status else was, id, ops[1..])
  }

  /** What one operation does to message `id` and the conversation it belongs to. */
  ghost predicate Carried(t: Tables, t': Tables, id: nat, op: Op)
    requires WellFormed(t) && id in t.messages
  {
    var c := t.messages[id].conversation;
    var fp := t.conversations[c].fingerprint;
    && (id in t'.messages <==> !Removes(op, id, fp))
    && (id in t'.messages ==>
         && t'.messages[id] == t.messages[id].(status := StatusAfter(t.messages[id].status, id, [op]))
         && c in t'.conversations && t'.conversations[c].fingerprint == fp)
  }

  lemma StoredKeepsOthers(t: Tables, message: Message, increment: nat, id: nat)
    requires WellFormed(t) && message.conversation in t.conversations && id in t.messages
    ensures var t', c := Stored(t, message, increment).0, t.messages[id].conversation;
      && id in t'.messages && t'.messages[id] == t.messages[id]
      && c in t'.conversations && t'.conversations[c].fingerprint == t.conversations[c].fingerprint
  {
  }

  lemma StatusUnlessSet(was: DeliveryStatus, id: nat, op: Op)
    requires !op.SetStatus?
    ensures StatusAfter(was, id, [op]) == was
  {
    assert StatusAfter(was, id, [op]) == StatusAfter(was, id, [op][1..]);
  }

  lemma StoreCarries(t: Tables, id: nat, op: Op)
    requires WellFormed(t) && id in t.messages && (op.Incoming? || op.Outgoing?)
    ensures Carried(t, Apply(t, op), id, op)
  {
    ArrivalApplied(t, op);
    OpenedWellFormed(t, op.fingerprint);
    StatusUnlessSet(t.messages[id].status, id, op);
    if Opened(t, op.fingerprint).Success? {
      var (t', c) := Opened(t, op.fingerprint).value;
      StoredKeepsOthers(t', Arriving(op, c), Increment(op), id);
    }
  }

  lemma MessageStep(t: Tables, id: nat, op: Op)
    requires WellFormed(t) && id in t.messages
    ensures Carried(t, Apply(t, op), id, op)
  {
    assert [op][1..] == [];
    match op
    case Incoming(fp, _, _, _, _) => StoreCarries(t, id, op);
    case Outgoing(fp, _, _) => StoreCarries(t, id, op);
    case DeleteConversation(fp) => DeleteConversationIsExact(t, fp);
    case _ =>
  }

  lemma RemovedOnce(t: Tables, id: nat, op: Op)
    requires WellFormed(t) && id !in t.messages && id <= t.lastMessageId
    ensures id !in Apply(t, op).messages
  {
  }

  lemma {:induction false} RemovedStaysRemoved(t: Tables, id: nat, ops: seq<Op>)
    requires WellFormed(t) && id !in t.messages && id <= t.lastMessageId
    ensures id !in Run(t, ops).messages
    decreases |ops|
  {
    if ops != [] {
      ApplyWellFormed(t, ops[0]);
      RemovedOnce(t, id, ops[0]);
      RemovedStaysRemoved(Apply(t, ops[0]), id, ops[1..]);
    }
  }

  ghost predicate Spared(ops: seq<Op>, id: nat, fingerprint: string) {
    forall op | op in ops :: !Removes(op, id, fingerprint)
  }

  lemma SparedTail(ops: seq<Op>, id: nat, fingerprint: string)
    requires ops != []
    ensures Spared(ops, id, fingerprint) <==> !Removes(ops[0], id, fingerprint) && Spared(ops[1..], id, fingerprint)
  {
  }

  lemma {:induction false} MessageCarried(t: Tables, id: nat, ops: seq<Op>, c: nat, fingerprint: string)
    requires WellFormed(t) && id in t.messages
    requires c == t.messages[id].conversation && fingerprint == t.conversations[c].fingerprint
    ensures var end := Run(t, ops);
      && (id in end.messages <==> Spared(ops, id, fingerprint))
      && (id in end.messages ==>
           && end.messages[id] == t.messages[id].(status := StatusAfter(t.messages[id].status, id, ops))
           && c in end.conversations && end.conversations[c].fingerprint == fingerprint)
    decreases |ops|
  {
    if ops != [] {
      SparedTail(ops, id, fingerprint);
      ApplyWellFormed(t, ops[0]);
      MessageStep(t, id, ops[0]);
      var t' := Apply(t, ops[0]);
      if Removes(ops[0], id, fingerprint) {
        RemovedStaysRemoved(t', id, ops[1..]);
      } else {
        StatusAfterCons(t.messages[id].status, id, ops);
        MessageCarried(t', id, ops[1..], c, fingerprint);
      }
    }
  }

  lemma StatusAfterCons(was: DeliveryStatus, id: nat, ops: seq<Op>)
    requires ops != []
    ensures StatusAfter(was, id, ops) == StatusAfter(StatusAfter(was, id, [ops[0]]), id, ops[1..])
  {
  }

  /** A stored message can be read back after any run exactly when the run neither deleted it nor
      its conversation, and then it is unchanged but for the last delivery status set on it.
      Once gone its id never names another message. */
  lemma MessageLife(t: Tables, id: nat, ops: seq<Op>)
    requires WellFormed(t) && id in t.messages
    ensures var fp := t.conversations[t.messages[id].conversation].fingerprint;
      var read := Joined(Run(t, ops), id);
      var message := t.messages[id].(status := StatusAfter(t.messages[id].status, id, ops));
      && (read.Success? <==> forall op | op in ops :: !Removes(op, id, fp))
      && (read.Success? ==> read.value == StoredMessage(id, fp, message))
  {
    var c := t.messages[id].conversation;
    MessageCarried(t, id, ops, c, t.conversations[c].fingerprint);
  }

  /** A stored message reads back as given, under an id no message ever had, and no other
      message changes. */
  lemma StoreReadsBack(t: Tables, op: Op, t': Tables, c: nat)
    requires WellFormed(t) && (op.Incoming? || op.Outgoing?) && Opened(t, op.fingerprint) == Success((t', c))
    ensures var after, id := Apply(t, op), t.lastMessageId + 1;
      && Answered(t, op) == Some(id)
      && id !in t.messages && after.lastMessageId == id
      && after.messages == t.messages[id := Arriving(op, c)]
      && Joined(after, id) == Success(StoredMessage(id, op.fingerprint, Arriving(op, c)))
  {
  }

  /** What the i-th operation of a run answers. */
  function AnswerAt(t: Tables, ops: seq<Op>, i: nat): Option<nat>
    requires WellFormed(t) && i < |ops|
  {
    Answered(Run(t, ops[..i]), ops[i])
  }

  lemma AnswerIsLastId(t: Tables, op: Op)
    requires WellFormed(t) && Answered(t, op).Some?
    ensures Answered(t, op).value == Apply(t, op).lastMessageId > t.lastMessageId
  {
    AnswerReadsBack(t, op);
  }

  lemma {:induction false} IdsOnlyGrow(t: Tables, ops: seq<Op>, i: nat, j: nat)
    requires WellFormed(t) && i <= j <= |ops|
    ensures Run(t, ops[..i]).lastMessageId <= Run(t, ops[..j]).lastMessageId
    decreases j
  {
    if i < j {
      assert ops[..j] == ops[..j - 1] + [ops[j - 1]];
      RunSnoc(t, ops[..j - 1], ops[j - 1]);
      ApplyWellFormed(Run(t, ops[..j - 1]), ops[j - 1]);
      IdsOnlyGrow(t, ops, i, j - 1);
    }
  }

  /** No two messages stored in a run are ever answered the same id, deleted or not: answers grow. */
  lemma AnswersGrow(t: Tables, ops: seq<Op>, i: nat, j: nat)
    requires WellFormed(t) && i < j < |ops| && AnswerAt(t, ops, i).Some? && AnswerAt(t, ops, j).Some?
    ensures AnswerAt(t, ops, i).value < AnswerAt(t, ops, j).value
  {
    AnswerIsLastId(Run(t, ops[..i]), ops[i]);
    AnswerIsLastId(Run(t, ops[..j]), ops[j]);
    assert ops[..i + 1] == ops[..i] + [ops[i]];
    RunSnoc(t, ops[..i], ops[i]);
    IdsOnlyGrow(t, ops, i + 1, j);
  }

  /** The answered id finds the message as it was given, after any later run, exactly until it or
      its conversation is deleted; only its delivery status can have moved on. */
  lemma AnswerNamesItsMessage(t: Tables, op: Op, id: nat, later: seq<Op>)
    requires WellFormed(t) && (op.Incoming? || op.Outgoing?) && Answered(t, op) == Some(id)
    ensures WellFormed(Apply(t, op))
    ensures var end := Run(Apply(t, op), later);
      if exists o | o in later :: o == DeleteMessage(id) || o == DeleteConversation(op.fingerprint)
      then Joined(end, id) == Failure(NoRow)
      else if op.Incoming? then
        Reads(end, id, op.fingerprint, Received, op.timestamp, op.content, StatusAfter(Pending, id, later),
              op.wasPrekey, op.established)
      else Reads(end, id, op.fingerprint, Sent, op.timestamp, op.content, StatusAfter(Pending, id, later), false, false)
  {
    ApplyWellFormed(t, op);
    AnswerReadsBack(t, op);
    MessageLife(Apply(t, op), id, later);
  }

  /** Storing a message stamps its conversation with the message's own timestamp, counts it if it
      was received, and leaves every other conversation as it was. */
  lemma StoreTouchesOneConversation(t: Tables, op: Op, t': Tables, c: nat)
    requires WellFormed(t) && (op.Incoming? || op.Outgoing?) && Opened(t, op.fingerprint) == Success((t', c))
    ensures var after := Apply(t, op);
      var was := if c in t.conversations then t.conversations[c] else Conversation(op.fingerprint, 0, 0, false);
      && after.conversations.Keys == t.conversations.Keys + {c}
      && after.conversations[c] == was.(lastTimestamp := op.timestamp, unread := was.unread + Increment(op))
      && (forall d | d in t.conversations && d != c :: after.conversations[d] == t.conversations[d])
  {
  }

  /** Deleting a conversation removes its row and exactly its messages; nothing else changes. */
  lemma DeleteConversationIsExact(t: Tables, fingerprint: string)
    requires WellFormed(t)
    ensures var t' := Apply(t, DeleteConversation(fingerprint));
      && t' == t.(conversations := t'.conversations, messages := t'.messages)
      && !HasConversation(t', fingerprint)
      && (forall c :: c in t'.conversations <==> c in t.conversations && t.conversations[c].fingerprint != fingerprint)
      && (forall c | c in t'.conversations :: t'.conversations[c] == t.conversations[c])
      && (forall m :: m in t'.messages <==>
           m in t.messages && t.conversations[t.messages[m].conversation].fingerprint != fingerprint)
      && (forall m | m in t'.messages :: t'.messages[m] == t.messages[m])
  {
  }

  // ================================================================== the row of a conversation

  /** What a conversation's row shows besides its counter: when its last message was sent or
      received, and whether it is archived. */
  datatype Face = Face(lastTimestamp: int, archived: bool)

  /** Whether the operation stores a message in conversation `c`, or sets its flag. */
  predicate Concerns(t: Tables, op: Op, c: nat)
    requires WellFormed(t)
  {
    && (op.Incoming? || op.Outgoing? || op.Archive?)
    && c in Apply(t, op).conversations && Apply(t, op).conversations[c].fingerprint == op.fingerprint
  }

  function FaceAfter(t: Tables, op: Op, c: nat, face: Face): Face
    requires WellFormed(t)
  {
    if !Concerns(t, op, c) then face
    else if op.Archive? then Face(face.lastTimestamp, op.archived)
    else Face(op.timestamp, face.archived)
  }

  /** The face of `c` as the run of `ops` tells it: its last message and its last archive call. */
  function LastFace(t: Tables, ops: seq<Op>, c: nat): Face
    requires WellFormed(t)
    decreases |ops|
  {
    if ops == [] then Face(0, false)
    else
      var front := ops[..|ops| - 1];
      FaceAfter(Run(t, front), ops[|ops| - 1], c, LastFace(t, front, c))
  }

  ghost predicate Shows(t: Tables, c: nat, face: Face) {
    && (c in t.conversations ==>
         t.conversations[c].lastTimestamp == face.lastTimestamp && t.conversations[c].archived == face.archived)
    && (c > t.lastConversationId ==> face == Face(0, false))
  }

  lemma ArrivalShows(t: Tables, op: Op, c: nat, face: Face)
    requires WellFormed(t) && Shows(t, c, face) && (op.Incoming? || op.Outgoing?)
    ensures Shows(Apply(t, op), c, FaceAfter(t, op, c, face))
  {
    ArrivalApplied(t, op);
    OpenedWellFormed(t, op.fingerprint);
    if Opened(t, op.fingerprint).Success? {
      var (t', d) := Opened(t, op.fingerprint).value;
      StoreTouchesOneConversation(t, op, t', d);
    }
  }

  lemma StepShows(t: Tables, op: Op, c: nat, face: Face)
    requires WellFormed(t) && Shows(t, c, face)
    ensures Shows(Apply(t, op), c, FaceAfter(t, op, c, face))
  {
    match op
    case Incoming(_, _, _, _, _) => ArrivalShows(t, op, c, face);
    case Outgoing(_, _, _) => ArrivalShows(t, op, c, face);
    case DeleteConversation(fp) => DeleteConversationIsExact(t, fp);
    case _ =>
  }

  /** After any run the row of a conversation carries the timestamp of the last message stored in
      it and the flag of the last archive call for it; nothing else touches either. */
  lemma {:induction false} RowFollowsRun(foreignKeys: bool, ops: seq<Op>, c: nat)
    ensures Shows(Run(Fresh(foreignKeys), ops), c, LastFace(Fresh(foreignKeys), ops, c))
    decreases |ops|
  {
    if ops != [] {
      var t, front, last := Fresh(foreignKeys), ops[..|ops| - 1], ops[|ops| - 1];
      assert ops == front + [last];
      RunSnoc(t, front, last);
      RowFollowsRun(foreignKeys, front, c);
      StepShows(Run(t, front), last, c, LastFace(t, front, c));
    }
  }

  /** Archiving sets the flag of that contact's conversation to the value given and changes nothing
      else. */
  lemma ArchiveSetsTheFlag(t: Tables, fingerprint: string, archived: bool)
    requires WellFormed(t)
    ensures var after := Apply(t, Archive(fingerprint, archived));
      && after == t.(conversations := after.conversations)
      && after.conversations.Keys == t.conversations.Keys
      && forall c | c in t.conversations ::
           var was, row := t.conversations[c], after.conversations[c];
           && (was.fingerprint != fingerprint ==> row == was)
           && (was.fingerprint == fingerprint ==>
                row.archived == archived && row == was.(archived := row.archived))
  {
  }
}
