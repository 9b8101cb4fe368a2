/** What the session and identity stores answer, told from the calls made before. */
module PeerHistory {
  import opened Basics
  import opened Addresses
  import opened PeerStores

  const NEW_MEMORY: MemoryState := MemoryState(map[], map[], None, None)
  const NEW_SQLITE: SqliteState := SqliteState(map[], map[], None)

  // ------------------------------------------------------------------ the calls made so far

  /** The identity key last saved for a peer and not deleted since. */
  function LastSaved(calls: seq<Op>, peer: Address): Option<IdentityKey>
    decreases |calls|
  {
    if calls == [] then None
    else
      var last := calls[|calls| - 1];
      if last.SaveIdentity? && last.peer == peer then Some(last.key)
      else if last == DeleteIdentity(peer) || last == ClearIdentities then None
      else LastSaved(calls[..|calls| - 1], peer)
  }

  /** The session last stored for a peer and not deleted since. */
  function LastSession(calls: seq<Op>, peer: Address): Option<SessionRecord>
    decreases |calls|
  {
    if calls == [] then None
    else
      var last := calls[|calls| - 1];
      if last.StoreSession? && last.peer == peer then Some(last.record)
      else if last == DeleteSession(peer) || last == ClearSessions then None
      else LastSession(calls[..|calls| - 1], peer)
  }

  /** The key pair last set and not cleared since. */
  function LastPair(calls: seq<Op>): Option<KeyPair>
    decreases |calls|
  {
    if calls == [] then None
    else
      var last := calls[|calls| - 1];
      if last.SetLocalKeyPair? then Some(last.pair)
      else if last == ClearLocalIdentity then None
      else LastPair(calls[..|calls| - 1])
  }

  /** The registration id last set and not cleared since. */
  function LastRegistrationId(calls: seq<Op>): Option<u32>
    decreases |calls|
  {
    if calls == [] then None
    else
      var last := calls[|calls| - 1];
      if last.SetRegistrationId? then Some(last.id)
      else if last == ClearLocalIdentity then None
      else LastRegistrationId(calls[..|calls| - 1])
  }

  function SavedPeers(calls: seq<Op>): set<Address> {
    set call | call in calls && call.SaveIdentity? && LastSaved(calls, call.peer).Some? :: call.peer
  }

  function SessionPeers(calls: seq<Op>): set<Address> {
    set call | call in calls && call.StoreSession? && LastSession(calls, call.peer).Some? :: call.peer
  }

  /** What a call must answer after these calls: a key is trusted for a peer without one or if it is
      the peer's last, and only a different key counts as replacing it. */
  ghost predicate Answers(calls: seq<Op>, call: Op, answer: Answer) {
    match call
    case LoadSession(a) => answer == Session(LastSession(calls, a))
    case CountSessions => answer == Number(|SessionPeers(calls)|)
    case SaveIdentity(a, k) =>
      && answer.Change?
      && (answer == Change(ReplacedExisting) <==> LastSaved(calls, a).Some? && LastSaved(calls, a).value != k)
    case IsTrustedIdentity(a, k) =>
      answer.Trust? && (answer.trusted <==> LastSaved(calls, a) == None || LastSaved(calls, a) == Some(k))
    case GetIdentity(a) => answer == Identity(LastSaved(calls, a))
    case CountIdentities => answer == Number(|SavedPeers(calls)|)
    case GetLocalKeyPair =>
      answer.LocalPair? &&
      (match LastPair(calls) case Some(p) => answer.pair == Success(p) case None => answer.pair == Failure(NoIdentity))
    case GetRegistrationId =>
      answer.Registration? &&
      (match LastRegistrationId(calls)
       case Some(n) => answer.id == Success(n)
       case None => answer.id == Failure(NoRegistrationId))
    case _ => answer == Done
  }

  // ------------------------------------------------------------------ the tables follow the calls

  function SqliteRun(s: SqliteState, ops: seq<Op>): SqliteState
    decreases |ops|
  {
    if ops == [] then s else SqliteRun(SqliteStep(s, ops[0]).0, ops[1..])
  }

  lemma {:induction false} SqliteRunSnoc(s: SqliteState, ops: seq<Op>, op: Op)
    ensures SqliteRun(s, ops + [op]) == SqliteStep(SqliteRun(s, ops), op).0
    decreases |ops|
  {
    if ops == [] {
      assert [] + [op] == [op] && [op][1..] == [];
    } else {
      assert (ops + [op])[0] == ops[0] && (ops + [op])[1..] == ops[1..] + [op];
      SqliteRunSnoc(SqliteStep(s, ops[0]).0, ops[1..], op);
    }
  }

  lemma {:induction false} SqliteAnswerAt(s: SqliteState, ops: seq<Op>, i: nat)
    requires i < |ops|
    ensures SqliteAnswers(s, ops)[i] == SqliteStep(SqliteRun(s, ops[..i]), ops[i]).1
    decreases i
  {
    if i > 0 {
      var s' := SqliteStep(s, ops[0]).0;
      assert ops[..i][0] == ops[0] && ops[..i][1..] == ops[1..][..i - 1];
      SqliteAnswerAt(s', ops[1..], i - 1);
      assert SqliteAnswers(s, ops)[i] == SqliteAnswers(s', ops[1..])[i - 1];
    }
  }

  ghost predicate Holds<V>(table: map<Address, V>, peer: Address, last: Option<V>) {
    match last
    case None => peer !in table
    case Some(v) => peer in table && table[peer] == v
  }

  /** The row exists once either half was set, with zero for a registration id that was not. */
  function LocalRowOf(pair: Option<KeyPair>, id: Option<u32>): Option<LocalRow> {
    if pair.None? && id.None? then None
    else Some(LocalRow(match id case Some(n) => n case None => 0, pair))
  }

  ghost predicate Follows(s: SqliteState, calls: seq<Op>) {
    && (forall a :: Holds(s.identities, a, LastSaved(calls, a)))
    && (forall a :: Holds(s.sessions, a, LastSession(calls, a)))
    && s.local == LocalRowOf(LastPair(calls), LastRegistrationId(calls))
  }

  /** `all` is `calls` followed by `op`. */
  ghost predicate Extended(all: seq<Op>, calls: seq<Op>, op: Op) {
    all != [] && all[|all| - 1] == op && all[..|all| - 1] == calls
  }

  lemma IdentitiesFollow(s: SqliteState, calls: seq<Op>, op: Op, all: seq<Op>, peer: Address)
    requires Extended(all, calls, op) && Holds(s.identities, peer, LastSaved(calls, peer))
    ensures Holds(SqliteStep(s, op).0.identities, peer, LastSaved(all, peer))
  {
  }

  lemma SessionsFollow(s: SqliteState, calls: seq<Op>, op: Op, all: seq<Op>, peer: Address)
    requires Extended(all, calls, op) && Holds(s.sessions, peer, LastSession(calls, peer))
    ensures Holds(SqliteStep(s, op).0.sessions, peer, LastSession(all, peer))
  {
  }

  lemma LocalFollows(s: SqliteState, calls: seq<Op>, op: Op, all: seq<Op>)
    requires Extended(all, calls, op) && s.local == LocalRowOf(LastPair(calls), LastRegistrationId(calls))
    ensures SqliteStep(s, op).0.local == LocalRowOf(LastPair(all), LastRegistrationId(all))
  {
  }

  lemma StepFollows(s: SqliteState, calls: seq<Op>, op: Op)
    requires Follows(s, calls)
    ensures Follows(SqliteStep(s, op).0, calls + [op])
  {
    var all := calls + [op];
    assert Extended(all, calls, op);
    forall a ensures Holds(SqliteStep(s, op).0.identities, a, LastSaved(all, a)) {
      IdentitiesFollow(s, calls, op, all, a);
    }
    forall a ensures Holds(SqliteStep(s, op).0.sessions, a, LastSession(all, a)) {
      SessionsFollow(s, calls, op, all, a);
    }
    LocalFollows(s, calls, op, all);
  }

  lemma {:induction false} RunFollows(calls: seq<Op>)
    ensures Follows(SqliteRun(NEW_SQLITE, calls), calls)
    decreases |calls|
  {
    if calls != [] {
      var front, last := calls[..|calls| - 1], calls[|calls| - 1];
      assert calls == front + [last];
      RunFollows(front);
      SqliteRunSnoc(NEW_SQLITE, front, last);
      StepFollows(SqliteRun(NEW_SQLITE, front), front, last);
    }
  }

  lemma {:induction false} SavedByACall(calls: seq<Op>, peer: Address)
    requires LastSaved(calls, peer).Some?
    ensures exists call | call in calls :: call.SaveIdentity? && call.peer == peer
    decreases |calls|
  {
    if !(calls[|calls| - 1].SaveIdentity? && calls[|calls| - 1].peer == peer) {
      SavedByACall(calls[..|calls| - 1], peer);
    }
  }

  lemma {:induction false} StoredByACall(calls: seq<Op>, peer: Address)
    requires LastSession(calls, peer).Some?
    ensures exists call | call in calls :: call.StoreSession? && call.peer == peer
    decreases |calls|
  {
    if !(calls[|calls| - 1].StoreSession? && calls[|calls| - 1].peer == peer) {
      StoredByACall(calls[..|calls| - 1], peer);
    }
  }

  lemma PeersAreKeys(s: SqliteState, calls: seq<Op>)
    requires Follows(s, calls)
    ensures s.identities.Keys == SavedPeers(calls) && s.sessions.Keys == SessionPeers(calls)
  {
    forall a ensures a in s.identities <==> a in SavedPeers(calls) {
      assert Holds(s.identities, a, LastSaved(calls, a));
      if a in s.identities { SavedByACall(calls, a); }
    }
    forall a ensures a in s.sessions <==> a in SessionPeers(calls) {
      assert Holds(s.sessions, a, LastSession(calls, a));
      if a in s.sessions { StoredByACall(calls, a); }
    }
  }

  // ------------------------------------------------------------------ the answers

  /** A key pair was set and no registration id has been, since both were last cleared. */
  predicate IdMissing(calls: seq<Op>) {
    LastPair(calls).Some? && LastRegistrationId(calls).None?
  }

  lemma StepAnswers(s: SqliteState, calls: seq<Op>, op: Op)
    requires Follows(s, calls)
    ensures if op.GetRegistrationId? && IdMissing(calls) then SqliteStep(s, op).1 == Registration(Success(0))
            else Answers(calls, op, SqliteStep(s, op).1)
  {
    PeersAreKeys(s, calls);
    assert |s.identities.Keys| == |s.identities| && |s.sessions.Keys| == |s.sessions|;
    if op.LoadSession? {
      assert Holds(s.sessions, op.peer, LastSession(calls, op.peer));
    } else if op.SaveIdentity? || op.IsTrustedIdentity? || op.GetIdentity? {
      assert Holds(s.identities, op.peer, LastSaved(calls, op.peer));
    }
  }

  lemma {:induction false} LocalSetByCalls(calls: seq<Op>)
    ensures LocalAfter(LocalSet(false, false), calls) == LocalSet(LastPair(calls).Some?, LastRegistrationId(calls).Some?)
    decreases |calls|
  {
    if calls != [] {
      var front, last := calls[..|calls| - 1], calls[|calls| - 1];
      assert calls == front + [last];
      LocalSetByCalls(front);
      LocalAfterSnoc(LocalSet(false, false), front, last);
    }
  }

  lemma {:induction false} LocalAfterSnoc(was: LocalSet, ops: seq<Op>, op: Op)
    ensures LocalAfter(was, ops + [op]) == LocalStep(LocalAfter(was, ops), op)
    decreases |ops|
  {
    if ops == [] {
      assert [] + [op] == [op] && [op][1..] == [];
    } else {
      assert (ops + [op])[0] == ops[0] && (ops + [op])[1..] == ops[1..] + [op];
      LocalAfterSnoc(LocalStep(was, ops[0]), ops[1..], op);
    }
  }

  /** On new stores every call of every sequence is answered by the calls before it alone, on both
      backends: sessions, identity keys, changes, trust, counts and the local identity all follow
      the last relevant call.  The one exception is SQLite's zero for a registration id not set. */
  lemma AnswersFollowTheCalls(ops: seq<Op>, i: nat)
    requires i < |ops|
    ensures Answers(ops[..i], ops[i], MemoryAnswers(NEW_MEMORY, ops)[i])
    ensures if ops[i].GetRegistrationId? && IdMissing(ops[..i]) then
              SqliteAnswers(NEW_SQLITE, ops)[i] == Registration(Success(0))
            else Answers(ops[..i], ops[i], SqliteAnswers(NEW_SQLITE, ops)[i])
  {
    var calls := ops[..i];
    SqliteAnswerAt(NEW_SQLITE, ops, i);
    RunFollows(calls);
    StepAnswers(SqliteRun(NEW_SQLITE, calls), calls, ops[i]);
    BackendsAgree(NEW_MEMORY, NEW_SQLITE, ops, i);
    LocalSetByCalls(calls);
  }

  /** In particular a substituted key is refused: after a key was saved for a peer, and through any
      calls that neither save nor delete one for it, exactly that key is trusted. */
  lemma OnlyTheSavedKeyIsTrusted(earlier: seq<Op>, peer: Address, saved: IdentityKey, between: seq<Op>, shown: IdentityKey)
    requires forall op | op in between ::
      !(op.SaveIdentity? && op.peer == peer) && op != DeleteIdentity(peer) && op != ClearIdentities
    ensures var calls := earlier + [SaveIdentity(peer, saved)] + between;
      var i, ops := |calls|, calls + [IsTrustedIdentity(peer, shown)];
      && MemoryAnswers(NEW_MEMORY, ops)[i] == Trust(shown == saved)
      && SqliteAnswers(NEW_SQLITE, ops)[i] == Trust(shown == saved)
  {
    var calls := earlier + [SaveIdentity(peer, saved)] + between;
    var ops := calls + [IsTrustedIdentity(peer, shown)];
    assert ops[..|calls|] == calls && ops[|calls|] == IsTrustedIdentity(peer, shown);
    SavedSurvives(earlier, peer, saved, between);
    AnswersFollowTheCalls(ops, |calls|);
  }

  lemma {:induction false} SavedSurvives(earlier: seq<Op>, peer: Address, saved: IdentityKey, between: seq<Op>)
    requires forall op | op in between ::
      !(op.SaveIdentity? && op.peer == peer) && op != DeleteIdentity(peer) && op != ClearIdentities
    ensures LastSaved(earlier + [SaveIdentity(peer, saved)] + between, peer) == Some(saved)
    decreases |between|
  {
    var calls := earlier + [SaveIdentity(peer, saved)] + between;
    if between == [] {
      assert calls[|calls| - 1] == SaveIdentity(peer, saved);
    } else {
      var front := between[..|between| - 1];
      assert calls[..|calls| - 1] == earlier + [SaveIdentity(peer, saved)] + front;
      assert calls[|calls| - 1] == between[|between| - 1] && between[|between| - 1] in between;
      SavedSurvives(earlier, peer, saved, front);
    }
  }
}
