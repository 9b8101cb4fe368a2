/** Sessions, peer identities and the local identity on both storage backends. */
module PeerStores {
  import opened Basics
  import opened Addresses

  datatype SessionRecord = SessionRecord(data: nat)
  datatype IdentityKey = IdentityKey(data: nat)

  datatype IdentityChange = NewOrUnchanged | ReplacedExisting

  /** One call of a storage trait method. */
  datatype Op =
    | LoadSession(peer: Address)
    | StoreSession(peer: Address, record: SessionRecord)
    | DeleteSession(peer: Address)
    | CountSessions
    | ClearSessions
    | SaveIdentity(peer: Address, key: IdentityKey)
    | IsTrustedIdentity(peer: Address, key: IdentityKey)
    | GetIdentity(peer: Address)
    | DeleteIdentity(peer: Address)
    | CountIdentities
    | ClearIdentities
    | SetLocalKeyPair(pair: KeyPair)
    | SetRegistrationId(id: u32)
    | GetLocalKeyPair
    | GetRegistrationId
    | ClearLocalIdentity

  datatype Answer =
    | Done
    | Session(session: Option<SessionRecord>)
    | Identity(identity: Option<IdentityKey>)
    | Change(change: IdentityChange)
    | Trust(trusted: bool)
    | Number(n: nat)
    | LocalPair(pair: Result<KeyPair>)
    | Registration(id: Result<u32>)

  function Find<K, V>(m: map<K, V>, k: K): Option<V> {
    if k in m then Some(m[k]) else None
  }

  function Changed(existing: Option<IdentityKey>, key: IdentityKey): IdentityChange {
    if existing.Some? && existing.value != key then ReplacedExisting else NewOrUnchanged
  }

  function Trusted(stored: Option<IdentityKey>, key: IdentityKey): bool {
    stored.Some? ==> stored.value == key
  }

  // ------------------------------------------------------------------ the in-memory backend

  datatype MemoryState = MemoryState(sessions: map<string, SessionRecord>, identities: map<string, IdentityKey>,
                                     pair: Option<KeyPair>, registrationId: Option<u32>)

  function MemoryStep(m: MemoryState, op: Op): (MemoryState, Answer) {
    match op
    case LoadSession(a) => (m, Session(Find(m.sessions, AddressKey(a))))
    case StoreSession(a, r) => (m.(sessions := m.sessions[AddressKey(a) := r]), Done)
    case DeleteSession(a) => (m.(sessions := m.sessions - {AddressKey(a)}), Done)
    case CountSessions => (m, Number(|m.sessions|))
    case ClearSessions => (m.(sessions := map[]), Done)
    case SaveIdentity(a, k) =>
      (m.(identities := m.identities[AddressKey(a) := k]), Change(Changed(Find(m.identities, AddressKey(a)), k)))
    case IsTrustedIdentity(a, k) => (m, Trust(Trusted(Find(m.identities, AddressKey(a)), k)))
    case GetIdentity(a) => (m, Identity(Find(m.identities, AddressKey(a))))
    case DeleteIdentity(a) => (m.(identities := m.identities - {AddressKey(a)}), Done)
    case CountIdentities => (m, Number(|m.identities|))
    case ClearIdentities => (m.(identities := map[]), Done)
    case SetLocalKeyPair(p) => (m.(pair := Some(p)), Done)
    case SetRegistrationId(n) => (m.(registrationId := Some(n)), Done)
    case GetLocalKeyPair => (m, LocalPair(if m.pair.Some? then Success(m.pair.value) else Failure(NoIdentity)))
    case GetRegistrationId =>
      (m, Registration(if m.registrationId.Some? then Success(m.registrationId.value) else Failure(NoRegistrationId)))
    case ClearLocalIdentity => (m.(pair := None, registrationId := None), Done)
  }

  // ------------------------------------------------------------------ the SQLite backend

  /** The single row of local_identity; an absent key pair is stored as an empty blob. */
  datatype LocalRow = LocalRow(registrationId: u32, privateKey: Option<KeyPair>)

  datatype SqliteState = SqliteState(sessions: map<Address, SessionRecord>, identities: map<Address, IdentityKey>,
                                     local: Option<LocalRow>)

  function SqliteStep(s: SqliteState, op: Op): (SqliteState, Answer) {
    match op
    case LoadSession(a) => (s, Session(Find(s.sessions, a)))
    case StoreSession(a, r) => (s.(sessions := s.sessions[a := r]), Done)
    case DeleteSession(a) => (s.(sessions := s.sessions - {a}), Done)
    case CountSessions => (s, Number(|s.sessions|))
    case ClearSessions => (s.(sessions := map[]), Done)
    case SaveIdentity(a, k) => (s.(identities := s.identities[a := k]), Change(Changed(Find(s.identities, a), k)))
    case IsTrustedIdentity(a, k) => (s, Trust(Trusted(Find(s.identities, a), k)))
    case GetIdentity(a) => (s, Identity(Find(s.identities, a)))
    case DeleteIdentity(a) => (s.(identities := s.identities - {a}), Done)
    case CountIdentities => (s, Number(|s.identities|))
    case ClearIdentities => (s.(identities := map[]), Done)
    case SetLocalKeyPair(p) =>
      (s.(local := Some(LocalRow(if s.local.Some? then s.local.value.registrationId else 0, Some(p)))), Done)
    case SetRegistrationId(n) =>
      (s.(local := Some(LocalRow(n, if s.local.Some? then s.local.value.privateKey else None))), Done)
    case GetLocalKeyPair =>
      (s, LocalPair(if s.local.Some? && s.local.value.privateKey.Some? then Success(s.local.value.privateKey.value)
                    else Failure(NoIdentity)))
    case GetRegistrationId =>
      (s, Registration(if s.local.Some? then Success(s.local.value.registrationId) else Failure(NoRegistrationId)))
    case ClearLocalIdentity => (s.(local := None), Done)
  }

  // ------------------------------------------------------------------ the objects

  /** The hash maps behind the in-memory session and identity stores. */
  class MemoryPeers {
    var sessions: map<string, SessionRecord>
    var identityKeys: map<string, IdentityKey>
    var localPair: Option<KeyPair>
    var localRegistrationId: Option<u32>

    ghost function State(): MemoryState
      reads this
    {
      MemoryState(sessions, identityKeys, localPair, localRegistrationId)
    }

    constructor ()
      ensures State() == MemoryState(map[], map[], None, None)
    {
      sessions, identityKeys, localPair, localRegistrationId := map[], map[], None, None;
    }

    method Perform(op: Op) returns (answer: Answer)
      modifies this
      ensures (State(), answer) == MemoryStep(old(State()), op)
    {
      answer := Done;
      match op
      case LoadSession(a) => answer := Session(Find(sessions, AddressKey(a)));
      case StoreSession(a, r) => sessions := sessions[AddressKey(a) := r];
      case DeleteSession(a) => sessions := sessions - {AddressKey(a)};
      case CountSessions => answer := Number(|sessions|);
      case ClearSessions => sessions := map[];
      case SaveIdentity(a, k) =>
        var key := AddressKey(a);
        var existing := Find(identityKeys, key);
        identityKeys := identityKeys[key := k];
        answer := Change(if existing.Some? && existing.value != k then ReplacedExisting else NewOrUnchanged);
      case IsTrustedIdentity(a, k) =>
        var key := AddressKey(a);
        answer := Trust(if key in identityKeys then identityKeys[key] == k else true);
      case GetIdentity(a) => answer := Identity(Find(identityKeys, AddressKey(a)));
      case DeleteIdentity(a) => identityKeys := identityKeys - {AddressKey(a)};
      case CountIdentities => answer := Number(|identityKeys|);
      case ClearIdentities => identityKeys := map[];
      case SetLocalKeyPair(p) => localPair := Some(p);
      case SetRegistrationId(n) => localRegistrationId := Some(n);
      case GetLocalKeyPair =>
        answer := LocalPair(if localPair.Some? then Success(localPair.value) else Failure(NoIdentity));
      case GetRegistrationId =>
        answer := Registration(if localRegistrationId.Some? then Success(localRegistrationId.value)
                               else Failure(NoRegistrationId));
      case ClearLocalIdentity => localPair, localRegistrationId := None, None;
    }
  }

  /** The sessions, identity_keys and local_identity tables. */
  class SqlitePeers {
    var sessions: map<Address, SessionRecord>
    var identityKeys: map<Address, IdentityKey>
    var localIdentity: Option<LocalRow>

    ghost function State(): SqliteState
      reads this
    {
      SqliteState(sessions, identityKeys, localIdentity)
    }

    constructor ()
      ensures State() == SqliteState(map[], map[], None)
    {
      sessions, identityKeys, localIdentity := map[], map[], None;
    }

    method GetIdentityKeyPair() returns (r: Result<KeyPair>)
      ensures r.Success? <==> localIdentity.Some? && localIdentity.value.privateKey.Some?
      ensures r.Success? ==> localIdentity.value.privateKey == Some(r.value)
      ensures r.Failure? ==> r.error == NoIdentity
    {
      r := Failure(NoIdentity);
      if localIdentity.Some? && localIdentity.value.privateKey.Some? {
        r := Success(localIdentity.value.privateKey.value);
      }
    }

    /** With only a key pair set the row's registration id reads zero. */
    method GetLocalRegistrationId() returns (r: Result<u32>)
      ensures r.Success? <==> localIdentity.Some?
      ensures r.Success? ==> r.value == localIdentity.value.registrationId
      ensures r.Failure? ==> r.error == NoRegistrationId
    {
      r := if localIdentity.Some? then Success(localIdentity.value.registrationId) else Failure(NoRegistrationId);
    }

    method Perform(op: Op) returns (answer: Answer)
      modifies this
      ensures (State(), answer) == SqliteStep(old(State()), op)
    {
      answer := Done;
      match op
      case LoadSession(a) => answer := Session(Find(sessions, a));
      case StoreSession(a, r) => sessions := sessions[a := r];
      case DeleteSession(a) => sessions := sessions - {a};
      case CountSessions => answer := Number(|sessions|);
      case ClearSessions => sessions := map[];
      case SaveIdentity(a, k) =>
        var change := if a !in identityKeys || identityKeys[a] == k then NewOrUnchanged else ReplacedExisting;
        identityKeys := identityKeys[a := k];
        answer := Change(change);
      case IsTrustedIdentity(a, k) =>
        var stored := Find(identityKeys, a);
        answer := Trust(match stored case None => true case Some(key) => key == k);
      case GetIdentity(a) => answer := Identity(Find(identityKeys, a));
      case DeleteIdentity(a) => identityKeys := identityKeys - {a};
      case CountIdentities => answer := Number(|identityKeys|);
      case ClearIdentities => identityKeys := map[];
      case SetLocalKeyPair(p) =>
        var kept: u32 := if localIdentity.Some? then localIdentity.value.registrationId else 0;
        localIdentity := Some(LocalRow(kept, Some(p)));
      case SetRegistrationId(n) =>
        var kept := if localIdentity.Some? then localIdentity.value.privateKey else None;
        localIdentity := Some(LocalRow(n, kept));
      case GetLocalKeyPair =>
        var pair := GetIdentityKeyPair();
        answer := LocalPair(pair);
      case GetRegistrationId =>
        var id := GetLocalRegistrationId();
        answer := Registration(id);
      case ClearLocalIdentity => localIdentity := None;
    }
  }

  // ------------------------------------------------------------------ simulation

  /** The hash map files exactly the table's rows, each under its address key. */
  ghost predicate SameTable<V>(mem: map<string, V>, sql: map<Address, V>) {
    && (forall a :: AddressKey(a) in mem <==> a in sql)
    && (forall a | a in sql :: mem[AddressKey(a)] == sql[a])
    && (forall key | key in mem :: exists a :: a in sql && AddressKey(a) == key)
  }

  lemma SameTableInsert<V>(mem: map<string, V>, sql: map<Address, V>, a: Address, v: V)
    requires SameTable(mem, sql)
    ensures SameTable(mem[AddressKey(a) := v], sql[a := v])
  {
    forall b ensures AddressKey(b) == AddressKey(a) <==> b == a { KeyInjective(a, b); }
  }

  lemma SameTableDelete<V>(mem: map<string, V>, sql: map<Address, V>, a: Address)
    requires SameTable(mem, sql)
    ensures SameTable(mem - {AddressKey(a)}, sql - {a})
  {
    forall b ensures AddressKey(b) == AddressKey(a) <==> b == a { KeyInjective(a, b); }
  }

  lemma {:induction false} SameTableSize<V>(mem: map<string, V>, sql: map<Address, V>)
    requires SameTable(mem, sql)
    ensures |mem| == |sql|
    decreases |sql|
  {
    if sql == map[] {
      assert forall key :: key !in mem;
      assert mem == map[];
    } else {
      var a :| a in sql;
      SameTableDelete(mem, sql, a);
      assert (sql - {a}).Keys == sql.Keys - {a} && |sql.Keys - {a}| == |sql| - 1;
      assert (mem - {AddressKey(a)}).Keys == mem.Keys - {AddressKey(a)};
      assert |mem.Keys - {AddressKey(a)}| == |mem| - 1;
      SameTableSize(mem - {AddressKey(a)}, sql - {a});
    }
  }

  /** The local rows agree, with SQLite's row present once either half was set and its
      registration id reading zero while only the key pair was. */
  ghost predicate Similar(m: MemoryState, s: SqliteState) {
    && SameTable(m.sessions, s.sessions)
    && SameTable(m.identities, s.identities)
    && s.local == (if m.pair.None? && m.registrationId.None? then None
                   else Some(LocalRow(if m.registrationId.Some? then m.registrationId.value else 0, m.pair)))
  }

  /** A key pair is set and a registration id is not. */
  predicate InGap(m: MemoryState) {
    m.pair.Some? && m.registrationId.None?
  }

  lemma StepKeepsSimilar(m: MemoryState, s: SqliteState, op: Op)
    requires Similar(m, s)
    ensures Similar(MemoryStep(m, op).0, SqliteStep(s, op).0)
  {
    match op
    case StoreSession(a, r) => SameTableInsert(m.sessions, s.sessions, a, r);
    case DeleteSession(a) => SameTableDelete(m.sessions, s.sessions, a);
    case SaveIdentity(a, k) => SameTableInsert(m.identities, s.identities, a, k);
    case DeleteIdentity(a) => SameTableDelete(m.identities, s.identities, a);
    case _ =>
  }

  lemma StepSimulates(m: MemoryState, s: SqliteState, op: Op)
    requires Similar(m, s)
    ensures MemoryStep(m, op).1 == SqliteStep(s, op).1 <==> !(op.GetRegistrationId? && InGap(m))
    ensures op.GetRegistrationId? && InGap(m) ==>
      MemoryStep(m, op).1 == Registration(Failure(NoRegistrationId)) &&
      SqliteStep(s, op).1 == Registration(Success(0))
  {
    SameTableSize(m.sessions, s.sessions);
    SameTableSize(m.identities, s.identities);
  }

  /** One call made on both backends keeps them in correspondence and, outside the gap, gets the
      same answer. */
  method PerformOnBoth(memory: MemoryPeers, sqlite: SqlitePeers, op: Op) returns (inMemory: Answer, inSqlite: Answer)
    requires Similar(memory.State(), sqlite.State())
    modifies memory, sqlite
    ensures Similar(memory.State(), sqlite.State())
    ensures inMemory == inSqlite <==> !(op.GetRegistrationId? && old(InGap(memory.State())))
  {
    StepKeepsSimilar(memory.State(), sqlite.State(), op);
    StepSimulates(memory.State(), sqlite.State(), op);
    inMemory := memory.Perform(op);
    inSqlite := sqlite.Perform(op);
  }

  function MemoryAnswers(m: MemoryState, ops: seq<Op>): (answers: seq<Answer>)
    ensures |answers| == |ops|
    decreases |ops|
  {
    if ops == [] then []
    else [MemoryStep(m, ops[0]).1] + MemoryAnswers(MemoryStep(m, ops[0]).0, ops[1..])
  }

  function SqliteAnswers(s: SqliteState, ops: seq<Op>): (answers: seq<Answer>)
    ensures |answers| == |ops|
    decreases |ops|
  {
    if ops == [] then []
    else [SqliteStep(s, ops[0]).1] + SqliteAnswers(SqliteStep(s, ops[0]).0, ops[1..])
  }

  /** Which halves of the local identity a caller has set since it was last cleared. */
  datatype LocalSet = LocalSet(pair: bool, registrationId: bool)

  function LocalStep(was: LocalSet, op: Op): LocalSet {
    match op
    case SetLocalKeyPair(_) => was.(pair := true)
    case SetRegistrationId(_) => was.(registrationId := true)
    case ClearLocalIdentity => LocalSet(false, false)
    case _ => was
  }

  function LocalAfter(was: LocalSet, ops: seq<Op>): LocalSet
    decreases |ops|
  {
    if ops == [] then was else LocalAfter(LocalStep(was, ops[0]), ops[1..])
  }

  function LocalOf(m: MemoryState): LocalSet {
    LocalSet(m.pair.Some?, m.registrationId.Some?)
  }

  lemma LocalOfStep(m: MemoryState, op: Op)
    ensures LocalOf(MemoryStep(m, op).0) == LocalStep(LocalOf(m), op)
  {
  }

  /** Over every sequence of calls, the two backends give the same answer to each call, except
      exactly this one: asked for the registration id after a key pair was set and before any
      registration id was, SQLite answers zero where the in-memory store reports an error. */
  lemma {:induction false} BackendsAgree(m: MemoryState, s: SqliteState, ops: seq<Op>, i: nat)
    requires Similar(m, s) && i < |ops|
    ensures var local := LocalAfter(LocalOf(m), ops[..i]);
      var inMemory, inSqlite := MemoryAnswers(m, ops)[i], SqliteAnswers(s, ops)[i];
      var gap := ops[i].GetRegistrationId? && local.pair && !local.registrationId;
      && (inMemory == inSqlite <==> !gap)
      && (gap ==> inMemory == Registration(Failure(NoRegistrationId)) && inSqlite == Registration(Success(0)))
    decreases i
  {
    StepSimulates(m, s, ops[0]);
    StepKeepsSimilar(m, s, ops[0]);
    if i > 0 {
      var m', s' := MemoryStep(m, ops[0]).0, SqliteStep(s, ops[0]).0;
      LocalOfStep(m, ops[0]);
      assert ops[..i][0] == ops[0] && ops[..i][1..] == ops[1..][..i - 1];
      assert LocalAfter(LocalOf(m), ops[..i]) == LocalAfter(LocalOf(m'), ops[1..][..i - 1]);
      assert MemoryAnswers(m, ops)[i] == MemoryAnswers(m', ops[1..])[i - 1];
      assert SqliteAnswers(s, ops)[i] == SqliteAnswers(s', ops[1..])[i - 1];
      BackendsAgree(m', s', ops[1..], i - 1);
    }
  }

  /** The same from empty stores, where both backends start. */
  lemma BackendsAgreeFromEmpty(ops: seq<Op>, i: nat)
    requires i < |ops|
    ensures var local := LocalAfter(LocalSet(false, false), ops[..i]);
      MemoryAnswers(MemoryState(map[], map[], None, None), ops)[i] ==
      SqliteAnswers(SqliteState(map[], map[], None), ops)[i] <==>
      !(ops[i].GetRegistrationId? && local.pair && !local.registrationId)
  {
    BackendsAgree(MemoryState(map[], map[], None, None), SqliteState(map[], map[], None), ops, i);
  }
}
