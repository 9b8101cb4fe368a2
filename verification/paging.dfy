/** Reading a conversation in pages, newest message first. */
module Paging {
  import opened Basics
  import opened MessageTables
  import opened MessageRuns

  /** The order of a page: newer timestamps first and, among equals, higher row ids first. */
  predicate Before(messages: map<nat, Message>, a: nat, b: nat)
    requires a in messages && b in messages
  {
    messages[a].timestamp > messages[b].timestamp ||
    (messages[a].timestamp == messages[b].timestamp && a > b)
  }

  predicate IsTop(messages: map<nat, Message>, ids: set<nat>, top: nat)
    requires ids <= messages.Keys
  {
    top in ids && forall m | m in ids :: m == top || Before(messages, top, m)
  }

  lemma {:induction false} TopExists(messages: map<nat, Message>, ids: set<nat>)
    requires ids != {} && ids <= messages.Keys
    ensures exists top :: IsTop(messages, ids, top)
    decreases |ids|
  {
    var x :| x in ids;
    if ids == {x} {
      assert IsTop(messages, ids, x);
    } else {
      var rest := ids - {x};
      assert rest != {};
      TopExists(messages, rest);
      var top :| IsTop(messages, rest, top);
      assert forall m | m in ids :: m == x || m in rest;
      if Before(messages, x, top) {
        assert IsTop(messages, ids, x);
      } else {
        assert IsTop(messages, ids, top);
      }
    }
  }

  function Top(messages: map<nat, Message>, ids: set<nat>): (top: nat)
    requires ids != {} && ids <= messages.Keys
    ensures IsTop(messages, ids, top)
  {
    TopExists(messages, ids);
    var top :| top in ids && IsTop(messages, ids, top);
    top
  }

  /** The messages with these ids, newest first. */
  function NewestFirst(messages: map<nat, Message>, ids: set<nat>): (order: seq<nat>)
    requires ids <= messages.Keys
    ensures |order| == |ids|
    decreases |ids|
  {
    if ids == {} then []
    else
      var top := Top(messages, ids);
      assert |ids - {top}| == |ids| - 1;
      [top] + NewestFirst(messages, ids - {top})
  }

  /** LIMIT and OFFSET. */
  function Slice<T>(s: seq<T>, limit: nat, offset: nat): seq<T> {
    if offset >= |s| then []
    else if limit >= |s| - offset then s[offset..]
    else s[offset..offset + limit]
  }

  function PageIds(t: Tables, fingerprint: string, limit: nat, offset: nat): seq<nat>
    requires WellFormed(t)
  {
    Slice(ListIds(t, fingerprint), limit, offset)
  }

  /** The whole conversation, newest first. */
  function ListIds(t: Tables, fingerprint: string): seq<nat>
    requires WellFormed(t)
  {
    if HasConversation(t, fingerprint) then NewestFirst(t.messages, MessagesOf(t, ConversationOf(t, fingerprint)))
    else []
  }

  lemma {:induction false} NewestFirstElements(messages: map<nat, Message>, ids: set<nat>)
    requires ids <= messages.Keys
    ensures forall m :: m in NewestFirst(messages, ids) <==> m in ids
    decreases |ids|
  {
    if ids != {} {
      var top := Top(messages, ids);
      NewestFirstElements(messages, ids - {top});
    }
  }

  lemma {:induction false} NewestFirstOrdered(messages: map<nat, Message>, ids: set<nat>, i: nat, j: nat)
    requires ids <= messages.Keys && i < j < |NewestFirst(messages, ids)|
    ensures var order := NewestFirst(messages, ids);
      order[i] in ids && order[j] in ids && order[i] != order[j] && Before(messages, order[i], order[j])
    decreases |ids|
  {
    var top := Top(messages, ids);
    var rest := NewestFirst(messages, ids - {top});
    assert |ids - {top}| == |ids| - 1;
    if i == 0 {
      NewestFirstElements(messages, ids - {top});
      assert rest[j - 1] in rest;
    } else {
      NewestFirstOrdered(messages, ids - {top}, i - 1, j - 1);
    }
  }

  method GetConversationMessages(history: MessageHistory, fingerprint: string, limit: u32, offset: u32)
    returns (page: seq<StoredMessage>)
    requires history.Valid()
    ensures |page| == |PageIds(history.State(), fingerprint, limit, offset)|
    ensures forall i | 0 <= i < |page| ::
      Joined(history.State(), PageIds(history.State(), fingerprint, limit, offset)[i]) == Success(page[i])
    ensures NoConversation(history.State(), fingerprint) ==> page == []
  {
    page := [];
    var found := history.SelectConversation(fingerprint);
    if found.None? {
      return;
    }
    var c := found.value;
    var ids := set m | m in history.messages && history.messages[m].conversation == c;
    assert ids == MessagesOf(history.State(), c);
    NewestFirstElements(history.messages, ids);
    var order := NewestFirst(history.messages, ids);
    var selected := Slice(order, limit, offset);
    assert forall i | 0 <= i < |selected| :: selected[i] == order[offset + i];
    assert forall i | 0 <= i < |order| :: order[i] in order;
    page := FetchRows(history, fingerprint, c, selected);
  }

  method FetchRows(history: MessageHistory, fingerprint: string, c: nat, ids: seq<nat>)
    returns (rows: seq<StoredMessage>)
    requires c in history.conversations && history.conversations[c].fingerprint == fingerprint
    requires forall i | 0 <= i < |ids| :: ids[i] in history.messages && history.messages[ids[i]].conversation == c
    ensures |rows| == |ids|
    ensures forall i | 0 <= i < |ids| :: Joined(history.State(), ids[i]) == Success(rows[i])
  {
    rows := [];
    for i := 0 to |ids|
      invariant |rows| == i
      invariant forall k | 0 <= k < i :: Joined(history.State(), ids[k]) == Success(rows[k])
    {
      rows := rows + [StoredMessage(ids[i], fingerprint, history.messages[ids[i]])];
    }
  }

  // ------------------------------------------------------------------ pages cover the conversation

  /** The first `n` pages one after the other. */
  function FirstPages(t: Tables, fingerprint: string, limit: nat, n: nat): seq<nat>
    requires WellFormed(t)
  {
    if n == 0 then []
    else FirstPages(t, fingerprint, limit, n - 1) + PageIds(t, fingerprint, limit, (n - 1) * limit)
  }

  lemma {:induction false} FirstPagesAreAPrefix(t: Tables, fingerprint: string, limit: nat, n: nat)
    requires WellFormed(t)
    ensures FirstPages(t, fingerprint, limit, n) == Slice(ListIds(t, fingerprint), n * limit, 0)
    decreases n
  {
    var all := ListIds(t, fingerprint);
    if n > 0 {
      FirstPagesAreAPrefix(t, fingerprint, limit, n - 1);
      assert n * limit == (n - 1) * limit + limit;
      SlicesJoin(all, (n - 1) * limit, limit);
    }
  }

  lemma SlicesJoin<T>(s: seq<T>, taken: nat, limit: nat)
    ensures Slice(s, taken, 0) + Slice(s, limit, taken) == Slice(s, taken + limit, 0)
  {
  }

  /** Without a conversation every page is empty. */
  lemma NoConversationNoPages(t: Tables, fingerprint: string, limit: nat, offset: nat)
    requires WellFormed(t)
    ensures (forall c | c in t.conversations :: t.conversations[c].fingerprint != fingerprint) ==>
      PageIds(t, fingerprint, limit, offset) == []
  {
  }

  /** Pages at offsets 0, L, 2L, ... joined together are every message of the conversation,
      each once, newest first, for any page size L. */
  lemma PagesCoverConversation(t: Tables, fingerprint: string, limit: nat, n: nat)
    requires WellFormed(t) && HasConversation(t, fingerprint)
    requires n * limit >= |MessagesOf(t, ConversationOf(t, fingerprint))|
    ensures var c, pages := ConversationOf(t, fingerprint), FirstPages(t, fingerprint, limit, n);
      && |pages| == |MessagesOf(t, c)|
      && (forall m :: m in pages <==> m in t.messages && t.messages[m].conversation == c)
      && (forall i, j | 0 <= i < j < |pages| ::
           && pages[i] in t.messages && pages[j] in t.messages && pages[i] != pages[j]
           && t.messages[pages[i]].timestamp >= t.messages[pages[j]].timestamp
           && (t.messages[pages[i]].timestamp == t.messages[pages[j]].timestamp ==> pages[i] > pages[j]))
  {
    var ids := MessagesOf(t, ConversationOf(t, fingerprint));
    FirstPagesAreAPrefix(t, fingerprint, limit, n);
    var pages := FirstPages(t, fingerprint, limit, n);
    assert pages == NewestFirst(t.messages, ids);
    NewestFirstElements(t.messages, ids);
    forall i, j | 0 <= i < j < |pages|
      ensures pages[i] in ids && pages[j] in ids && pages[i] != pages[j] && Before(t.messages, pages[i], pages[j])
    {
      NewestFirstOrdered(t.messages, ids, i, j);
    }
  }

  // ------------------------------------------------------------------ pages under new arrivals

  ghost predicate AllBefore(messages: map<nat, Message>, front: set<nat>, back: set<nat>)
    requires front <= messages.Keys && back <= messages.Keys
  {
    forall a, b | a in front && b in back :: Before(messages, a, b)
  }

  lemma TopOfUnion(messages: map<nat, Message>, front: set<nat>, back: set<nat>, top: nat)
    requires front <= messages.Keys && back <= messages.Keys && AllBefore(messages, front, back)
    requires IsTop(messages, front, top)
    ensures top !in back && Top(messages, front + back) == top
  {
  }

  lemma NewestFirstUnfolds(messages: map<nat, Message>, ids: set<nat>, top: nat, rest: set<nat>)
    requires ids != {} && ids <= messages.Keys && Top(messages, ids) == top && rest == ids - {top}
    ensures NewestFirst(messages, ids) == [top] + NewestFirst(messages, rest)
  {
  }

  lemma Reassociate(top: nat, x: seq<nat>, y: seq<nat>)
    ensures [top] + (x + y) == [top] + x + y
  {
  }

  lemma {:induction false} NewestFirstSplits(messages: map<nat, Message>, front: set<nat>, back: set<nat>, all: set<nat>)
    requires front <= messages.Keys && back <= messages.Keys && AllBefore(messages, front, back)
    requires all == front + back
    ensures NewestFirst(messages, all) == NewestFirst(messages, front) + NewestFirst(messages, back)
    decreases |front|
  {
    if front == {} {
      assert all == back;
    } else {
      var top := Top(messages, front);
      var rest := front - {top};
      TopOfUnion(messages, front, back, top);
      NewestFirstUnfolds(messages, front, top, rest);
      NewestFirstUnfolds(messages, all, top, all - {top});
      assert |rest| < |front|;
      NewestFirstSplits(messages, rest, back, all - {top});
      Reassociate(top, NewestFirst(messages, rest), NewestFirst(messages, back));
    }
  }

  /** The order depends only on the messages listed. */
  lemma {:induction false} NewestFirstLocal(messages: map<nat, Message>, messages': map<nat, Message>, ids: set<nat>)
    requires ids <= messages.Keys && ids <= messages'.Keys
    requires forall m | m in ids :: messages'[m].timestamp == messages[m].timestamp
    ensures NewestFirst(messages', ids) == NewestFirst(messages, ids)
    decreases |ids|
  {
    if ids != {} {
      var top := Top(messages, ids);
      assert IsTop(messages', ids, top);
      assert Top(messages', ids) == top;
      assert |ids - {top}| == |ids| - 1;
      NewestFirstLocal(messages, messages', ids - {top});
    }
  }

  /** After messages arrive that all sort before the ones already there, the list is theirs
      followed by the old list. */
  lemma ArrivalsGoInFront(messages: map<nat, Message>, messages': map<nat, Message>,
                          earlier: set<nat>, arrived: set<nat>)
    requires earlier <= messages.Keys && earlier <= messages'.Keys && arrived <= messages'.Keys
    requires AllBefore(messages', arrived, earlier) && SameStamps(messages, messages', earlier)
    ensures NewestFirst(messages', arrived + earlier) == NewestFirst(messages', arrived) + NewestFirst(messages, earlier)
  {
    NewestFirstSplits(messages', arrived, earlier, arrived + earlier);
    NewestFirstLocal(messages, messages', earlier);
  }

  lemma SliceAfter<T>(front: seq<T>, back: seq<T>, n: nat, limit: nat, offset: nat)
    requires |front| == n
    ensures Slice(front + back, limit, offset + n) == Slice(back, limit, offset)
  {
  }

  /** `t'` lists in conversation `c` the new messages `arrived` and all that `t` listed. */
  ghost predicate Extends(t: Tables, t': Tables, c: nat, arrived: set<nat>) {
    && c in t.conversations && c in t'.conversations
    && t'.conversations[c].fingerprint == t.conversations[c].fingerprint
    && t.lastMessageId <= t'.lastMessageId
    && MessagesOf(t', c) == arrived + MessagesOf(t, c)
    && (forall m | m in arrived :: m in t'.messages && m > t.lastMessageId)
    && SameStamps(t.messages, t'.messages, MessagesOf(t, c))
  }

  ghost predicate SameStamps(messages: map<nat, Message>, messages': map<nat, Message>, ids: set<nat>) {
    forall m | m in ids :: m in messages && m in messages' && messages'[m].timestamp == messages[m].timestamp
  }

  predicate ArrivesAt(op: Op, fingerprint: string) {
    (op.Incoming? || op.Outgoing?) && op.fingerprint == fingerprint
  }

  /** What may happen between two page reads of conversation `c`: anything but the deletion of
      the conversation or of one of its messages. */
  ghost predicate Leaves(t: Tables, c: nat, op: Op)
    requires c in t.conversations
  {
    && op != DeleteConversation(t.conversations[c].fingerprint)
    && (op.DeleteMessage? ==> op.id <= t.lastMessageId && op.id !in MessagesOf(t, c))
  }

  ghost predicate AllLeave(t: Tables, c: nat, ops: seq<Op>)
    requires c in t.conversations
  {
    forall op | op in ops :: Leaves(t, c, op)
  }

  /** The number of messages the operations store in the conversation. */
  function ArrivalCount(ops: seq<Op>, fingerprint: string): nat {
    if ops == [] then 0
    else (if ArrivesAt(ops[0], fingerprint) then 1 else 0) + ArrivalCount(ops[1..], fingerprint)
  }

  ghost predicate OpsFrom(ops: seq<Op>, fingerprint: string, bound: int) {
    forall op | op in ops && ArrivesAt(op, fingerprint) :: op.timestamp >= bound
  }

  ghost predicate MessagesFrom(messages: map<nat, Message>, ids: set<nat>, bound: int) {
    forall m | m in ids && m in messages :: messages[m].timestamp >= bound
  }

  lemma ArrivalExtends(t: Tables, c: nat, op: Op)
    requires WellFormed(t) && c in t.conversations && ArrivesAt(op, t.conversations[c].fingerprint)
    ensures Extends(t, Apply(t, op), c, {t.lastMessageId + 1})
    ensures var id := t.lastMessageId + 1;
      id in Apply(t, op).messages && Apply(t, op).messages[id].timestamp == op.timestamp
  {
    FoundById(t, op.fingerprint, c);
    ArrivalApplied(t, op);
    StoredMessagesOf(t, Arriving(op, c), Increment(op));
  }

  lemma StoredMessagesOf(t: Tables, message: Message, increment: nat)
    requires WellFormed(t) && message.conversation in t.conversations
    ensures MessagesOf(Stored(t, message, increment).0, message.conversation) ==
      {t.lastMessageId + 1} + MessagesOf(t, message.conversation)
  {
  }

  /** A message for another contact goes to another conversation. */
  lemma ForeignArrivalExtends(t: Tables, c: nat, op: Op)
    requires WellFormed(t) && c in t.conversations && (op.Incoming? || op.Outgoing?)
    requires op.fingerprint != t.conversations[c].fingerprint
    ensures Extends(t, Apply(t, op), c, {})
  {
    ArrivalApplied(t, op);
    OpenedWellFormed(t, op.fingerprint);
    if Opened(t, op.fingerprint).Success? {
      var (t', d) := Opened(t, op.fingerprint).value;
      assert t'.conversations[c] == t.conversations[c] && d != c;
      StoredElsewhere(t', Arriving(op, d), Increment(op), c);
    }
  }

  lemma StoredElsewhere(t: Tables, message: Message, increment: nat, c: nat)
    requires WellFormed(t) && message.conversation in t.conversations
    requires c in t.conversations && c != message.conversation
    ensures Extends(t, Stored(t, message, increment).0, c, {})
  {
  }

  lemma DropExtends(t: Tables, c: nat, fingerprint: string)
    requires WellFormed(t) && c in t.conversations && t.conversations[c].fingerprint != fingerprint
    ensures Extends(t, ConversationDeleted(t, fingerprint), c, {})
  {
  }

  lemma QuietExtends(t: Tables, c: nat, op: Op)
    requires WellFormed(t) && c in t.conversations && Leaves(t, c, op)
    requires !ArrivesAt(op, t.conversations[c].fingerprint)
    ensures Extends(t, Apply(t, op), c, {})
  {
    match op
    case Incoming(_, _, _, _, _) => ForeignArrivalExtends(t, c, op);
    case Outgoing(_, _, _) => ForeignArrivalExtends(t, c, op);
    case DeleteConversation(fp) => DropExtends(t, c, fp);
    case _ =>
  }

  lemma StepExtends(t: Tables, c: nat, op: Op, bound: int) returns (arrived: set<nat>)
    requires WellFormed(t) && c in t.conversations && Leaves(t, c, op)
    ensures Extends(t, Apply(t, op), c, arrived)
    ensures |arrived| == if ArrivesAt(op, t.conversations[c].fingerprint) then 1 else 0
    ensures OpsFrom([op], t.conversations[c].fingerprint, bound) <==> MessagesFrom(Apply(t, op).messages, arrived, bound)
  {
    assert op in [op];
    if ArrivesAt(op, t.conversations[c].fingerprint) {
      arrived := {t.lastMessageId + 1};
      ArrivalExtends(t, c, op);
    } else {
      arrived := {};
      QuietExtends(t, c, op);
    }
  }

  lemma ExtendsTwice(t: Tables, t1: Tables, t2: Tables, c: nat, first: set<nat>, rest: set<nat>)
    requires Extends(t, t1, c, first) && Extends(t1, t2, c, rest)
    requires SameStamps(t.messages, t2.messages, MessagesOf(t, c))
    ensures Extends(t, t2, c, rest + first)
  {
    assert forall m | m in first :: m in MessagesOf(t1, c);
  }

  lemma SameStampsTwice(t: Tables, t1: Tables, t2: Tables, c: nat, first: set<nat>, rest: set<nat>)
    requires Extends(t, t1, c, first) && Extends(t1, t2, c, rest)
    ensures SameStamps(t.messages, t2.messages, MessagesOf(t, c))
    ensures SameStamps(t1.messages, t2.messages, first)
  {
    assert forall m | m in MessagesOf(t, c) || m in first :: m in MessagesOf(t1, c);
  }

  lemma DisjointArrivals(t: Tables, t1: Tables, t2: Tables, c: nat, first: set<nat>, rest: set<nat>)
    requires WellFormed(t1) && Extends(t, t1, c, first) && Extends(t1, t2, c, rest)
    ensures first !! rest && |rest + first| == |first| + |rest|
  {
    assert forall m | m in first :: m <= t1.lastMessageId;
  }

  lemma FromBoth(messages: map<nat, Message>, messages': map<nat, Message>, first: set<nat>, rest: set<nat>, bound: int)
    requires SameStamps(messages, messages', first)
    ensures MessagesFrom(messages', rest + first, bound) <==>
      MessagesFrom(messages, first, bound) && MessagesFrom(messages', rest, bound)
  {
  }

  lemma LeavesLater(t: Tables, t1: Tables, c: nat, arrived: set<nat>, ops: seq<Op>)
    requires WellFormed(t) && Extends(t, t1, c, arrived) && AllLeave(t, c, ops)
    ensures AllLeave(t1, c, ops)
  {
  }

  lemma SplitFirst(t: Tables, c: nat, ops: seq<Op>, fingerprint: string, bound: int)
    requires ops != [] && c in t.conversations && AllLeave(t, c, ops)
    ensures Leaves(t, c, ops[0]) && AllLeave(t, c, ops[1..])
    ensures OpsFrom(ops, fingerprint, bound) <==>
      OpsFrom([ops[0]], fingerprint, bound) && OpsFrom(ops[1..], fingerprint, bound)
  {
    assert ops == [ops[0]] + ops[1..];
  }

  lemma {:induction false} RunExtends(t: Tables, c: nat, ops: seq<Op>, fingerprint: string, bound: int)
    returns (arrived: set<nat>)
    requires WellFormed(t) && c in t.conversations && AllLeave(t, c, ops)
    requires fingerprint == t.conversations[c].fingerprint
    ensures Extends(t, Run(t, ops), c, arrived) && |arrived| == ArrivalCount(ops, fingerprint)
    ensures OpsFrom(ops, fingerprint, bound) <==> MessagesFrom(Run(t, ops).messages, arrived, bound)
    decreases |ops|
  {
    if ops == [] {
      arrived := {};
    } else {
      SplitFirst(t, c, ops, fingerprint, bound);
      ApplyWellFormed(t, ops[0]);
      var t1 := Apply(t, ops[0]);
      var first := StepExtends(t, c, ops[0], bound);
      LeavesLater(t, t1, c, first, ops[1..]);
      var rest := RunExtends(t1, c, ops[1..], fingerprint, bound);
      arrived := rest + first;
      var end := Run(t, ops);
      SameStampsTwice(t, t1, end, c, first, rest);
      ExtendsTwice(t, t1, end, c, first, rest);
      DisjointArrivals(t, t1, end, c, first, rest);
      FromBoth(t1.messages, end.messages, first, rest, bound);
    }
  }

  /** Every page of `t` is a page of `t'`, `n` places further on. */
  ghost predicate PagesShift(t: Tables, t': Tables, fingerprint: string, n: nat)
    requires WellFormed(t) && WellFormed(t')
  {
    forall limit: nat, offset: nat ::
      PageIds(t', fingerprint, limit, offset + n) == PageIds(t, fingerprint, limit, offset)
  }

  /** No message of the conversation is newer than `bound`. */
  ghost predicate NoneNewer(t: Tables, c: nat, bound: int) {
    forall m | m in t.messages && t.messages[m].conversation == c :: t.messages[m].timestamp <= bound
  }

  lemma ListById(t: Tables, c: nat)
    requires WellFormed(t) && c in t.conversations
    ensures ListIds(t, t.conversations[c].fingerprint) == NewestFirst(t.messages, MessagesOf(t, c))
  {
  }

  lemma FrontShiftsPages(t: Tables, t': Tables, fingerprint: string, front: seq<nat>, n: nat)
    requires WellFormed(t) && WellFormed(t') && |front| == n
    requires ListIds(t', fingerprint) == front + ListIds(t, fingerprint)
    ensures PagesShift(t, t', fingerprint, n)
  {
    forall limit: nat, offset: nat
      ensures PageIds(t', fingerprint, limit, offset + n) == PageIds(t, fingerprint, limit, offset)
    {
      SliceAfter(front, ListIds(t, fingerprint), n, limit, offset);
    }
  }

  /** Shifted pages mean that the old list is the new one without its first `n` messages. */
  lemma ShiftedTail(t: Tables, t': Tables, fingerprint: string, n: nat)
    requires WellFormed(t) && WellFormed(t') && PagesShift(t, t', fingerprint, n)
    requires |ListIds(t', fingerprint)| == n + |ListIds(t, fingerprint)|
    ensures ListIds(t', fingerprint)[n..] == ListIds(t, fingerprint)
  {
    var size := |ListIds(t, fingerprint)|;
    assert PageIds(t', fingerprint, size, 0 + n) == PageIds(t, fingerprint, size, 0);
  }

  lemma NotInTail(list: seq<nat>, n: nat, i: nat)
    requires n <= |list| && i < |list| && list[i] !in list[n..]
    ensures i < n
  {
  }

  lemma OutsideTailSortsFirst(messages: map<nat, Message>, all: set<nat>, list: seq<nat>, n: nat, a: nat, b: nat)
    requires all <= messages.Keys && list == NewestFirst(messages, all) && n <= |list|
    requires a in list && a !in list[n..] && b in list[n..]
    ensures a in all && b in all && Before(messages, a, b)
  {
    var i :| 0 <= i < |list| && list[i] == a;
    var j :| 0 <= j < |list| - n && list[n..][j] == b;
    NotInTail(list, n, i);
    NewestFirstOrdered(messages, all, i, n + j);
  }

  /** If the list from position `n` holds exactly `back`, everything else sorts before `back`. */
  lemma TailSortsLast(messages: map<nat, Message>, front: set<nat>, back: set<nat>, all: set<nat>, tail: seq<nat>, n: nat)
    requires front <= messages.Keys && back <= messages.Keys && front !! back && all == front + back
    requires n <= |NewestFirst(messages, all)| && tail == NewestFirst(messages, all)[n..]
    requires forall m :: m in tail <==> m in back
    ensures AllBefore(messages, front, back)
  {
    NewestFirstElements(messages, all);
    forall a, b | a in front && b in back ensures Before(messages, a, b) {
      OutsideTailSortsFirst(messages, all, NewestFirst(messages, all), n, a, b);
    }
  }

  lemma ExtensionShiftsPagesIff(t: Tables, t': Tables, c: nat, arrived: set<nat>, n: nat)
    requires WellFormed(t) && WellFormed(t') && Extends(t, t', c, arrived) && |arrived| == n
    ensures arrived <= t'.messages.Keys && MessagesOf(t, c) <= t'.messages.Keys && arrived !! MessagesOf(t, c)
    ensures PagesShift(t, t', t.conversations[c].fingerprint, n) <==>
      AllBefore(t'.messages, arrived, MessagesOf(t, c))
  {
    var fingerprint, earlier := t.conversations[c].fingerprint, MessagesOf(t, c);
    ListById(t, c);
    ListById(t', c);
    if AllBefore(t'.messages, arrived, earlier) {
      ArrivalsGoInFront(t.messages, t'.messages, earlier, arrived);
      FrontShiftsPages(t, t', fingerprint, NewestFirst(t'.messages, arrived), n);
    }
    if PagesShift(t, t', fingerprint, n) {
      assert |arrived + earlier| == n + |earlier|;
      ShiftedTail(t, t', fingerprint, n);
      NewestFirstElements(t.messages, earlier);
      TailSortsLast(t'.messages, arrived, earlier, arrived + earlier, ListIds(t, fingerprint), n);
    }
  }

  /** New messages have higher ids, so they sort before the earlier ones exactly when none is older. */
  lemma BeforeEarlierIff(t: Tables, t': Tables, c: nat, arrived: set<nat>, newest: nat)
    requires WellFormed(t) && Extends(t, t', c, arrived) && IsTop(t.messages, MessagesOf(t, c), newest)
    requires arrived <= t'.messages.Keys && MessagesOf(t, c) <= t'.messages.Keys
    ensures AllBefore(t'.messages, arrived, MessagesOf(t, c)) <==>
      MessagesFrom(t'.messages, arrived, t.messages[newest].timestamp)
  {
  }

  /** After any operations that leave the conversation's messages in place, the page at an offset
      moved on by the number of messages that arrived in it is the page that was at the old
      offset - exactly when none of those messages is older than one already there. */
  lemma RunShiftsPagesIff(t: Tables, c: nat, ops: seq<Op>, fingerprint: string)
    requires WellFormed(t) && c in t.conversations && AllLeave(t, c, ops)
    requires fingerprint == t.conversations[c].fingerprint
    ensures PagesShift(t, Run(t, ops), fingerprint, ArrivalCount(ops, fingerprint)) <==>
      forall op | op in ops && ArrivesAt(op, fingerprint) :: NoneNewer(t, c, op.timestamp)
  {
    var earlier := MessagesOf(t, c);
    if earlier == {} {
      var arrived := RunExtends(t, c, ops, fingerprint, 0);
      ExtensionShiftsPagesIff(t, Run(t, ops), c, arrived, ArrivalCount(ops, fingerprint));
      assert forall m | m in t.messages && t.messages[m].conversation == c :: m in earlier;
    } else {
      var newest := Top(t.messages, earlier);
      var bound := t.messages[newest].timestamp;
      var arrived := RunExtends(t, c, ops, fingerprint, bound);
      ExtensionShiftsPagesIff(t, Run(t, ops), c, arrived, ArrivalCount(ops, fingerprint));
      BeforeEarlierIff(t, Run(t, ops), c, arrived, newest);
      NoneNewerIff(t, c, newest, ops, fingerprint);
    }
  }

  lemma NoneNewerIff(t: Tables, c: nat, newest: nat, ops: seq<Op>, fingerprint: string)
    requires IsTop(t.messages, MessagesOf(t, c), newest)
    ensures OpsFrom(ops, fingerprint, t.messages[newest].timestamp) <==>
      forall op | op in ops && ArrivesAt(op, fingerprint) :: NoneNewer(t, c, op.timestamp)
  {
    assert forall bound :: NoneNewer(t, c, bound) ==> t.messages[newest].timestamp <= bound;
    assert forall m | m in t.messages && t.messages[m].conversation == c :: m in MessagesOf(t, c);
    assert forall bound :: t.messages[newest].timestamp <= bound ==> NoneNewer(t, c, bound);
  }

  lemma RunOne(t: Tables, op: Op, fingerprint: string)
    requires WellFormed(t) && ArrivesAt(op, fingerprint)
    ensures Run(t, [op]) == Apply(t, op) && ArrivalCount([op], fingerprint) == 1
  {
    ApplyWellFormed(t, op);
    assert Run(t, [op]) == Run(Apply(t, op), []);
    assert ArrivalCount([op], fingerprint) == 1 + ArrivalCount([], fingerprint);
  }

  /** One message arriving, received or sent, shifts every page by one exactly when nothing
      already in the conversation is newer than it. */
  lemma ArrivalShiftsPagesIff(t: Tables, op: Op)
    requires WellFormed(t) && (op.Incoming? || op.Outgoing?) && HasConversation(t, op.fingerprint)
    ensures WellFormed(Apply(t, op))
    ensures PagesShift(t, Apply(t, op), op.fingerprint, 1) <==>
      NoneNewer(t, ConversationOf(t, op.fingerprint), op.timestamp)
  {
    assert op in [op];
    RunOne(t, op, op.fingerprint);
    RunShiftsPagesIff(t, ConversationOf(t, op.fingerprint), [op], op.fingerprint);
  }
}
