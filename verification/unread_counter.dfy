/** The cached unread counter against the messages that are unread, over whole runs. */
module UnreadCounter {
  import opened Basics
  import opened MessageTables

  /** When a conversation was last marked as read: the newest message id at that time and, for a
      mark with a bound, the timestamp past which messages stayed unread. */
  datatype Mark = Mark(upToId: nat, bound: Option<int>)

  const NEVER: Mark := Mark(0, None)

  predicate PastBound(mark: Mark, timestamp: int) {
    mark.bound.Some? && timestamp > mark.bound.value
  }

  /** A message is unread if it was received and either arrived after the last mark or is past its bound. */
  predicate IsUnread(id: nat, message: Message, mark: Mark) {
    message.direction.Received? && (id > mark.upToId || PastBound(mark, message.timestamp))
  }

  function Unread(t: Tables, mark: Mark, c: nat): set<nat> {
    set m | m in t.messages && t.messages[m].conversation == c && IsUnread(m, t.messages[m], mark)
  }

  /** Whether the operation marks conversation `c`. */
  predicate Marks(t: Tables, op: Op, c: nat)
    requires WellFormed(t)
  {
    (op.MarkRead? || op.MarkReadUpTo?) && HasConversation(t, op.fingerprint) && ConversationOf(t, op.fingerprint) == c
  }

  function MarkAfter(t: Tables, op: Op, c: nat, mark: Mark): Mark
    requires WellFormed(t)
  {
    if Marks(t, op, c) then Mark(t.lastMessageId, if op.MarkReadUpTo? then Some(op.upTo) else None) else mark
  }

  /** The last mark of conversation `c` in the run of `ops`. */
  function LastMark(t: Tables, ops: seq<Op>, c: nat): Mark
    requires WellFormed(t)
    decreases |ops|
  {
    if ops == [] then NEVER
    else
      var front := ops[..|ops| - 1];
      MarkAfter(Run(t, front), ops[|ops| - 1], c, LastMark(t, front, c))
  }

  /** Whether the operation deletes a message of `c` that is unread. */
  predicate DeletesUnread(t: Tables, op: Op, c: nat, mark: Mark) {
    op.DeleteMessage? && op.id in Unread(t, mark, c)
  }

  function LostAfter(t: Tables, op: Op, c: nat, mark: Mark, lost: nat): nat
    requires WellFormed(t)
  {
    if Marks(t, op, c) then 0 else if DeletesUnread(t, op, c, mark) then lost + 1 else lost
  }

  /** How many messages of `c` were deleted while unread since its last mark. */
  function Lost(t: Tables, ops: seq<Op>, c: nat): nat
    requires WellFormed(t)
    decreases |ops|
  {
    if ops == [] then 0
    else
      var front := ops[..|ops| - 1];
      LostAfter(Run(t, front), ops[|ops| - 1], c, LastMark(t, front, c), Lost(t, front, c))
  }

  // ------------------------------------------------------------------ one operation

  /** The counter of `c` is its unread messages plus those deleted while unread. */
  ghost predicate Explained(t: Tables, c: nat, mark: Mark, lost: nat) {
    && (c in t.conversations ==> t.conversations[c].unread == |Unread(t, mark, c)| + lost)
    && (c > t.lastConversationId ==> lost == 0)
    && mark.upToId <= t.lastMessageId
  }

  lemma OpenedExplained(t: Tables, fingerprint: string, c: nat, mark: Mark, lost: nat)
    requires WellFormed(t) && Explained(t, c, mark, lost) && Opened(t, fingerprint).Success?
    ensures Explained(Opened(t, fingerprint).value.0, c, mark, lost)
  {
    var (t', d) := Opened(t, fingerprint).value;
    OpenedWellFormed(t, fingerprint);
    assert Unread(t', mark, c) == Unread(t, mark, c);
    if c in t'.conversations && c !in t.conversations {
      assert Unread(t, mark, c) == {};
    }
  }

  lemma StoredUnread(t: Tables, message: Message, increment: nat, id: nat, c: nat, mark: Mark)
    requires WellFormed(t) && message.conversation in t.conversations
    requires id == t.lastMessageId + 1 && mark.upToId < id
    ensures Unread(Stored(t, message, increment).0, mark, c) ==
      Unread(t, mark, c) + if c == message.conversation && message.direction.Received? then {id} else {}
    ensures id !in Unread(t, mark, c)
  {
  }

  lemma StoredExplained(t: Tables, message: Message, increment: nat, id: nat, c: nat, mark: Mark, lost: nat)
    requires WellFormed(t) && Explained(t, c, mark, lost) && message.conversation in t.conversations
    requires id == t.lastMessageId + 1 && increment == if message.direction.Received? then 1 else 0
    ensures Explained(Stored(t, message, increment).0, c, mark, lost)
  {
    StoredUnread(t, message, increment, id, c, mark);
    if c == message.conversation && message.direction.Received? {
      assert |Unread(t, mark, c) + {id}| == |Unread(t, mark, c)| + 1;
    } else {
      assert Unread(t, mark, c) + {} == Unread(t, mark, c);
    }
  }

  lemma ArrivalExplained(t: Tables, op: Op, c: nat, mark: Mark, lost: nat)
    requires WellFormed(t) && Explained(t, c, mark, lost) && (op.Incoming? || op.Outgoing?)
    ensures Explained(Apply(t, op), c, mark, lost)
  {
    ArrivalApplied(t, op);
    if Opened(t, op.fingerprint).Success? {
      var (t', d) := Opened(t, op.fingerprint).value;
      OpenedExplained(t, op.fingerprint, c, mark, lost);
      StoredExplained(t', Arriving(op, d), Increment(op), t'.lastMessageId + 1, c, mark, lost);
    }
  }

  lemma MarkExplained(t: Tables, op: Op, c: nat, mark: Mark, lost: nat)
    requires WellFormed(t) && Explained(t, c, mark, lost) && (op.MarkRead? || op.MarkReadUpTo?)
    ensures Explained(Apply(t, op), c, MarkAfter(t, op, c, mark), LostAfter(t, op, c, mark, lost))
  {
    if Marks(t, op, c) {
      var bound := if op.MarkReadUpTo? then Some(op.upTo) else None;
      if op.MarkRead? {
        assert Unread(Apply(t, op), Mark(t.lastMessageId, bound), c) == {};
      } else {
        assert Unread(Apply(t, op), Mark(t.lastMessageId, bound), c) == ReceivedAfter(t, c, op.upTo);
      }
    } else {
      assert Unread(Apply(t, op), mark, c) == Unread(t, mark, c);
    }
  }

  lemma DeleteMessageExplained(t: Tables, id: nat, c: nat, mark: Mark, lost: nat)
    requires WellFormed(t) && Explained(t, c, mark, lost)
    ensures Unread(Apply(t, DeleteMessage(id)), mark, c) == Unread(t, mark, c) - {id}
    ensures Explained(Apply(t, DeleteMessage(id)), c, mark, LostAfter(t, DeleteMessage(id), c, mark, lost))
  {
    assert Unread(Apply(t, DeleteMessage(id)), mark, c) == Unread(t, mark, c) - {id};
  }

  lemma DeleteConversationExplained(t: Tables, fingerprint: string, c: nat, mark: Mark, lost: nat)
    requires WellFormed(t) && Explained(t, c, mark, lost)
    ensures Explained(ConversationDeleted(t, fingerprint), c, mark, lost)
  {
    var t' := ConversationDeleted(t, fingerprint);
    if c in t'.conversations {
      assert Unread(t', mark, c) == Unread(t, mark, c);
    }
  }

  lemma OtherExplained(t: Tables, op: Op, c: nat, mark: Mark, lost: nat)
    requires WellFormed(t) && Explained(t, c, mark, lost) && (op.AddContact? || op.SetStatus? || op.Archive?)
    ensures Explained(Apply(t, op), c, mark, lost)
  {
    assert Unread(Apply(t, op), mark, c) == Unread(t, mark, c);
  }

  lemma StepExplained(t: Tables, op: Op, c: nat, mark: Mark, lost: nat)
    requires WellFormed(t) && Explained(t, c, mark, lost)
    ensures Explained(Apply(t, op), c, MarkAfter(t, op, c, mark), LostAfter(t, op, c, mark, lost))
  {
    match op
    case Incoming(_, _, _, _, _) => ArrivalExplained(t, op, c, mark, lost);
    case Outgoing(_, _, _) => ArrivalExplained(t, op, c, mark, lost);
    case MarkRead(_) => MarkExplained(t, op, c, mark, lost);
    case MarkReadUpTo(_, _) => MarkExplained(t, op, c, mark, lost);
    case DeleteMessage(id) => DeleteMessageExplained(t, id, c, mark, lost);
    case DeleteConversation(fp) => DeleteConversationExplained(t, fp, c, mark, lost);
    case _ => OtherExplained(t, op, c, mark, lost);
  }

  // ------------------------------------------------------------------ whole runs

  lemma {:induction false} RunExplained(foreignKeys: bool, ops: seq<Op>, c: nat)
    ensures var t := Fresh(foreignKeys);
      Explained(Run(t, ops), c, LastMark(t, ops, c), Lost(t, ops, c))
    decreases |ops|
  {
    if ops != [] {
      var t, front, last := Fresh(foreignKeys), ops[..|ops| - 1], ops[|ops| - 1];
      assert ops == front + [last];
      RunSnoc(t, front, last);
      RunExplained(foreignKeys, front, c);
      StepExplained(Run(t, front), last, c, LastMark(t, front, c), Lost(t, front, c));
    }
  }

  /** After any run each counter is the number of unread messages - received, and since the last
      mark or past its bound - plus the number deleted while unread since that mark. */
  lemma UnreadCounterIsExplained(foreignKeys: bool, ops: seq<Op>, c: nat)
    requires c in Run(Fresh(foreignKeys), ops).conversations
    ensures var t, end := Fresh(foreignKeys), Run(Fresh(foreignKeys), ops);
      end.conversations[c].unread == |Unread(end, LastMark(t, ops, c), c)| + Lost(t, ops, c)
  {
    RunExplained(foreignKeys, ops, c);
  }

  /** So it is exact in every run without single-message deletes. */
  lemma UnreadCounterIsExact(foreignKeys: bool, ops: seq<Op>, c: nat)
    requires c in Run(Fresh(foreignKeys), ops).conversations
    requires forall op | op in ops :: !op.DeleteMessage?
    ensures var t, end := Fresh(foreignKeys), Run(Fresh(foreignKeys), ops);
      end.conversations[c].unread == |Unread(end, LastMark(t, ops, c), c)|
  {
    UnreadCounterIsExplained(foreignKeys, ops, c);
    NothingLostWithoutDeletes(Fresh(foreignKeys), ops, c);
  }

  lemma {:induction false} NothingLostWithoutDeletes(t: Tables, ops: seq<Op>, c: nat)
    requires WellFormed(t) && forall op | op in ops :: !op.DeleteMessage?
    ensures Lost(t, ops, c) == 0
    decreases |ops|
  {
    if ops != [] {
      assert ops[|ops| - 1] in ops;
      NothingLostWithoutDeletes(t, ops[..|ops| - 1], c);
    }
  }

  /** After any run that leaves a conversation's counter exact, deleting one of its messages keeps it
      exact if and only if the message was sent, or had arrived by the last mark and is not past
      its bound. */
  lemma DeleteKeepsCounterExactIff(foreignKeys: bool, ops: seq<Op>, id: nat)
    requires id in Run(Fresh(foreignKeys), ops).messages
    requires var end, c := Run(Fresh(foreignKeys), ops), Run(Fresh(foreignKeys), ops).messages[id].conversation;
      end.conversations[c].unread == |Unread(end, LastMark(Fresh(foreignKeys), ops, c), c)|
    ensures var t, end := Fresh(foreignKeys), Run(Fresh(foreignKeys), ops);
      var c, ops', message := end.messages[id].conversation, ops + [DeleteMessage(id)], end.messages[id];
      var end', mark := Run(t, ops'), LastMark(t, ops, c);
      && c in end'.conversations
      && (end'.conversations[c].unread == |Unread(end', LastMark(t, ops', c), c)| <==>
          message.direction.Sent? || (id <= mark.upToId && !PastBound(mark, message.timestamp)))
  {
    var t, end := Fresh(foreignKeys), Run(Fresh(foreignKeys), ops);
    var c, ops' := end.messages[id].conversation, ops + [DeleteMessage(id)];
    assert ops'[..|ops'| - 1] == ops;
    RunSnoc(t, ops, DeleteMessage(id));
    UnreadCounterIsExplained(foreignKeys, ops, c);
    UnreadCounterIsExplained(foreignKeys, ops', c);
  }

  /** And it does fail: a message received and deleted unread leaves the counter one too high. */
  lemma DeleteCanLeaveCounterHigh(foreignKeys: bool)
    ensures exists ops: seq<Op>, c: nat ::
      var t, end := Fresh(foreignKeys), Run(Fresh(foreignKeys), ops);
      c in end.conversations && end.conversations[c].unread == |Unread(end, LastMark(t, ops, c), c)| + 1
  {
    var t := Fresh(foreignKeys);
    var ops0: seq<Op> := [];
    var ops1 := ops0 + [AddContact("a")];
    var ops2 := ops1 + [Incoming("a", 0, [], false, false)];
    var ops3 := ops2 + [DeleteMessage(1)];
    RunSnoc(t, ops0, AddContact("a"));
    RunSnoc(t, ops1, Incoming("a", 0, [], false, false));
    RunSnoc(t, ops2, DeleteMessage(1));
    var end := Run(t, ops3);
    assert 1 in end.conversations && end.conversations[1].unread == 1;
    assert end.messages == map[];
    assert Unread(end, LastMark(t, ops3, 1), 1) == {};
  }
}
