/** Whole runs of the key lifecycle: what holds after any sequence of operations. */
module KeyRuns {
  import opened Basics
  import opened Ids
  import opened KeyTables
  import opened KeyRotation
  import opened PreKeyPools
  import opened LotlKeys
  import PeerStores

  datatype Event =
    | Maintain(clock: Readings, drawn: Material)
    | Consume(id: u32, draws: Draws)
    | Remove(id: u32)
    | Reopen(identity: KeyPair, randomId: u32, signedMade: u64, kyberMade: u64, drawn: Material)

  /** One issued signed or Kyber key, with the check reading that led to it. */
  datatype Issue = Issue(check: u64, record: KeyRecord)

  /** The stores, with what a bystander would have written down about the run so far. */
  datatype History = History(stores: Stores, now: nat,
                             signedLog: seq<Issue>, kyberLog: seq<Issue>,
                             issued: set<u32>, batches: nat, removed: nat)

  /** The one-time ids that topping up the pool issues. */
  function NewIds(pool: Pool): set<u32> {
    if |pool| >= MIN_PRE_KEY_COUNT then {}
    else match BatchStart(pool)
      case Success(start) => if BatchFits(start) then Batch(start) else {}
      case Failure(_) => {}
  }

  function Logged(log: seq<Issue>, keys: Keys, rotated: bool, check: u64, made: u64, pair: KeyPair): seq<Issue> {
    match NextId(keys)
    case Success(id) => if rotated then log + [Issue(check, KeyRecord(id, made, pair))] else log
    case Failure(_) => log
  }

  function Advance(h: History, event: Event): Result<History> {
    match event
    case Maintain(clock, drawn) =>
      (var (stores, r) := Maintained(h.stores, clock, drawn);
       match r
       case Failure(e) => Failure(e)
       case Success(report) =>
         Success(h.(stores := stores, now := clock.kyberSweep,
                    signedLog := Logged(h.signedLog, h.stores.signed, report.signedRotated,
                                        clock.signedCheck, clock.signedMade, drawn.signed),
                    kyberLog := Logged(h.kyberLog, h.stores.kyber, report.kyberRotated,
                                       clock.kyberCheck, clock.kyberMade, drawn.kyber),
                    issued := h.issued + NewIds(h.stores.pool),
                    batches := h.batches + if NewIds(h.stores.pool) == {} then 0 else 1)))
    case Consume(id, draws) =>
      (var rest := h.stores.pool - {id};
       var (pool, r) := Consumed(h.stores.pool, id, draws);
       match r
       case Failure(e) => Failure(e)
       case Success(_) =>
         Success(h.(stores := h.stores.(pool := pool),
                    issued := h.issued + NewIds(rest),
                    batches := h.batches + (if NewIds(rest) == {} then 0 else 1),
                    removed := h.removed + if id in h.stores.pool then 1 else 0)))
    case Remove(id) =>
      Success(h.(stores := h.stores.(pool := h.stores.pool - {id}),
                 removed := h.removed + if id in h.stores.pool then 1 else 0))
    case Reopen(identity, randomId, signedMade, kyberMade, drawn) =>
      (match SetUp(h.stores, identity, randomId, signedMade, kyberMade, drawn)
       case (_, Failure(e)) => Failure(e)
       case (stores, Success(_)) => Success(h.(stores := stores)))
  }

  function Run(h: History, events: seq<Event>): Result<History>
    decreases |events|
  {
    if events == [] then Success(h)
    else match Advance(h, events[0])
      case Failure(e) => Failure(e)
      case Success(next) => Run(next, events[1..])
  }

  /** The history right after first-run setup. */
  function Born(identity: KeyPair, randomId: u32, signedMade: u64, kyberMade: u64, drawn: Material): History {
    History(SetUp(EMPTY, identity, randomId, signedMade, kyberMade, drawn).0, kyberMade,
            [Issue(signedMade, KeyRecord(1, signedMade, drawn.signed))],
            [Issue(kyberMade, KeyRecord(1, kyberMade, drawn.kyber))],
            Batch(1), 1, 0)
  }

  // ------------------------------------------------------------------ the clock

  ghost predicate ReadingsOk(clock: Readings, from: nat) {
    && from <= clock.signedCheck <= clock.signedMade <= clock.kyberCheck <= clock.kyberMade
    && clock.kyberMade <= clock.signedSweep <= clock.kyberSweep
    && GRACE <= clock.signedSweep
  }

  /** Readings never go back and lie past the first grace period of the epoch. */
  ghost predicate ClockOk(events: seq<Event>, from: nat) {
    events != [] ==>
      match events[0]
      case Maintain(clock, _) => ReadingsOk(clock, from) && ClockOk(events[1..], clock.kyberSweep)
      case _ => ClockOk(events[1..], from)
  }

  // ------------------------------------------------------------------ the invariant

  /** One key is stored, the last one issued, and ids were issued as 1, 2, 3, ... */
  ghost predicate HoldsOnlyLast(keys: Keys, log: seq<Issue>) {
    && 1 <= |log| <= U32_MAX
    && keys == map[|log| := log[|log| - 1].record]
    && forall i | 0 <= i < |log| :: log[i].record.id == i + 1
  }

  /** Besides, rotations kept their distance. */
  ghost predicate LogInv(keys: Keys, log: seq<Issue>, now: nat) {
    && HoldsOnlyLast(keys, log)
    && (forall i | 0 <= i < |log| :: log[i].check <= log[i].record.timestamp <= now)
    && (forall i | 0 <= i < |log| - 1 :: log[i].record.timestamp + DUE_AGE <= log[i + 1].check)
  }

  /** Live one-time keys were issued, ids were issued from 1 without gaps, and the counts add up. */
  ghost predicate PoolInv(pool: Pool, issued: set<u32>, batches: nat, removed: nat) {
    && issued != {} && issued == Interval(1, Max(issued))
    && pool.Keys <= issued
    && |pool| + removed == REPLENISH_COUNT * batches
    && REPLENISH_COUNT * batches <= removed + 149
    && Max(issued) <= REPLENISH_COUNT * batches
  }

  ghost predicate Inv(h: History) {
    && HasIdentity(h.stores)
    && LogInv(h.stores.signed, h.signedLog, h.now)
    && LogInv(h.stores.kyber, h.kyberLog, h.now)
    && PoolInv(h.stores.pool, h.issued, h.batches, h.removed)
  }

  lemma BornInv(identity: KeyPair, randomId: u32, signedMade: u64, kyberMade: u64, drawn: Material)
    requires signedMade <= kyberMade
    ensures SetUp(EMPTY, identity, randomId, signedMade, kyberMade, drawn).1 == Success(())
    ensures Inv(Born(identity, randomId, signedMade, kyberMade, drawn))
  {
    var h := Born(identity, randomId, signedMade, kyberMade, drawn);
    BatchAddsAHundred(map[], drawn.batch);
    assert h.stores.pool.Keys == Batch(1);
    assert IsMax(Batch(1), 100);
    assert Max(Batch(1)) == 100;
  }

  /** One maintenance seen by one kind of key: it rotates exactly when the stored key is a full
      `DUE_AGE` old, cannot fail except by running out of ids, and ends with a single key. */
  lemma LineStep(keys: Keys, log: seq<Issue>, now: nat, check: u64, made: u64, sweep: u64, pair: KeyPair)
    requires LogInv(keys, log, now) && now <= check <= made <= sweep && GRACE <= sweep
    ensures var (rotated, r) := RotatedIfDue(keys, check, made, pair);
      && (r.Failure? <==> |log| == U32_MAX && check - log[|log| - 1].record.timestamp >= DUE_AGE)
      && (r.Success? ==>
           && (r.value <==> check - log[|log| - 1].record.timestamp >= DUE_AGE)
           && Cleaned(rotated, sweep).Success?
           && LogInv(Cleaned(rotated, sweep).value, Logged(log, keys, r.value, check, made, pair), sweep))
  {
    var n := |log|;
    var last := log[n - 1].record;
    assert keys.Keys == {n};
    assert Max(keys.Keys) == n && Newest(keys) == last;
    var (rotated, r) := RotatedIfDue(keys, check, made, pair);
    if r == Success(true) {
      DueImpliesExpired(Sqlite, last.timestamp, check, sweep);
      assert rotated.Keys == {n, n + 1};
      assert IsMax(rotated.Keys, n + 1);
      var expired := Expired(Sqlite, rotated, Cutoff(sweep));
      assert n in expired;
      assert Cleaned(rotated, sweep).value == map[n + 1 := KeyRecord(n + 1, made, pair)];
    } else if r == Success(false) {
      assert Cleaned(keys, sweep).value == keys by {
        AtMostOneLeft(keys, Expired(Sqlite, keys, Cutoff(sweep)), n);
      }
    }
  }

  /** Every outcome of a cleanup leaves one key and the log's last one. */
  ghost predicate SureToKeepLast(backend: Backend, keys: Keys, sweep: u64, log: seq<Issue>)
    requires GRACE <= sweep
  {
    forall after | CleanedUp(backend, keys, Cutoff(sweep), after) :: LogInv(after, log, sweep)
  }

  ghost predicate SureToKeepOne(backend: Backend, keys: Keys, sweep: u64)
    requires GRACE <= sweep
  {
    forall after | CleanedUp(backend, keys, Cutoff(sweep), after) :: |after| == 1
  }

  /** The same step on either backend, for every listing order: one key is left, and it is sure to
      be the newest over SQLite, without a rotation, or while the new key is not expired itself
      when the sweep is made. */
  lemma LineStepOnBackend(backend: Backend, keys: Keys, log: seq<Issue>, now: nat,
                          check: u64, made: u64, sweep: u64, pair: KeyPair)
    requires LogInv(keys, log, now) && now <= check <= made <= sweep && GRACE <= sweep
    ensures var (rotated, r) := RotatedIfDue(keys, check, made, pair);
      r.Success? ==>
        && SureToKeepOne(backend, rotated, sweep)
        && (SureToKeepLast(backend, rotated, sweep, Logged(log, keys, r.value, check, made, pair)) <==>
            (backend.Sqlite? || !r.value || !IsExpired(Memory, made, Cutoff(sweep))))
  {
    var n := |log|;
    SingleNewest(keys, log, now);
    LineStep(keys, log, now, check, made, sweep, pair);
    var (rotated, r) := RotatedIfDue(keys, check, made, pair);
    if r == Success(true) {
      DueImpliesExpired(Sqlite, log[n - 1].record.timestamp, check, sweep);
      DueImpliesExpired(backend, log[n - 1].record.timestamp, check, sweep);
      assert rotated.Keys == {n, n + 1};
      SuccessorLeftOverSqlite(rotated, n, sweep);
      SuccessorSureIff(backend, rotated, n, sweep, Logged(log, keys, true, check, made, pair));
    } else if r == Success(false) {
      LogInvLater(keys, log, now, sweep);
      OneKeySwept(backend, keys, n, sweep);
    }
  }

  lemma OneKeySwept(backend: Backend, keys: Keys, n: u32, sweep: u64)
    requires keys.Keys == {n} && GRACE <= sweep
    ensures forall after | CleanedUp(backend, keys, Cutoff(sweep), after) :: after == keys && |after| == 1
  {
    forall after | CleanedUp(backend, keys, Cutoff(sweep), after) ensures after == keys && |after| == 1 {
      AtMostOneLeft(keys, Expired(backend, keys, Cutoff(sweep)), n);
      assert |keys.Keys| == 1;
    }
  }

  lemma SuccessorLeftOverSqlite(keys: Keys, n: u32, sweep: u64)
    requires n < U32_MAX && keys.Keys == {n, n + 1} && GRACE <= sweep
    requires IsExpired(Sqlite, keys[n].timestamp, Cutoff(sweep))
    ensures Cleaned(keys, sweep) == Success(Only(keys, n + 1))
  {
    assert IsMax(keys.Keys, n + 1);
    var expired := Expired(Sqlite, keys, Cutoff(sweep));
    assert n in expired;
    if expired != keys.Keys {
      assert keys - expired == Only(keys, n + 1);
    }
  }

  /** A cleanup of an expired key and its successor leaves the successor, except that over the hash
      map, with both expired, it may leave the older one. */
  lemma TwoKeysSwept(backend: Backend, keys: Keys, n: u32, cutoff: u64, after: Keys)
    requires n < U32_MAX && keys.Keys == {n, n + 1} && IsExpired(backend, keys[n].timestamp, cutoff)
    ensures CleanedUp(backend, keys, cutoff, after) <==>
      || after == Only(keys, n + 1)
      || (backend.Memory? && IsExpired(Memory, keys[n + 1].timestamp, cutoff) && after == Only(keys, n))
  {
    assert IsMax(keys.Keys, n + 1);
    var expired := Expired(backend, keys, cutoff);
    assert n in expired;
    if n + 1 !in expired {
      assert keys - expired == Only(keys, n + 1);
    }
  }

  lemma SuccessorSureIff(backend: Backend, keys: Keys, n: u32, sweep: u64, log: seq<Issue>)
    requires n < U32_MAX && keys.Keys == {n, n + 1} && GRACE <= sweep
    requires IsExpired(backend, keys[n].timestamp, Cutoff(sweep))
    requires |log| == n + 1 && LogInv(Only(keys, n + 1), log, sweep)
    ensures SureToKeepOne(backend, keys, sweep)
    ensures SureToKeepLast(backend, keys, sweep, log) <==>
      (backend.Sqlite? || !IsExpired(Memory, keys[n + 1].timestamp, Cutoff(sweep)))
  {
    forall after | CleanedUp(backend, keys, Cutoff(sweep), after) ensures |after| == 1 {
      TwoKeysSwept(backend, keys, n, Cutoff(sweep), after);
    }
    TwoKeysSwept(backend, keys, n, Cutoff(sweep), Only(keys, n));
    assert !LogInv(Only(keys, n), log, sweep) by {
      assert n !in map[|log| := log[|log| - 1].record] && n in Only(keys, n);
    }
    if backend.Sqlite? || !IsExpired(Memory, keys[n + 1].timestamp, Cutoff(sweep)) {
      forall after | CleanedUp(backend, keys, Cutoff(sweep), after) ensures LogInv(after, log, sweep) {
        TwoKeysSwept(backend, keys, n, Cutoff(sweep), after);
      }
    }
  }

  lemma AtMostOneLeft(keys: Keys, expired: set<u32>, n: u32)
    requires keys.Keys == {n} && expired <= keys.Keys
    ensures if expired != keys.Keys then keys - expired == keys else Only(keys, n) == keys
  {
  }

  /** Topping up keeps the pool's books. */
  lemma TopUpStep(pool: Pool, issued: set<u32>, batches: nat, removed: nat, draws: Draws)
    requires PoolInv(pool, issued, batches, removed)
    ensures var (after, r) := ToppedUp(pool, draws);
      r.Success? ==>
        && PoolInv(after, issued + NewIds(pool), batches + (if NewIds(pool) == {} then 0 else 1), removed)
        && |after| >= MIN_PRE_KEY_COUNT
        && |after| - |pool| == (if NewIds(pool) == {} then 0 else REPLENISH_COUNT)
    ensures ToppedUp(pool, draws).1.Failure? ==> removed + 149 > U32_MAX
  {
    BatchAddsAHundred(pool, draws);
    if pool != map[] {
      assert Max(pool.Keys) in issued;
    }
    if |pool| < MIN_PRE_KEY_COUNT && ToppedUp(pool, draws).1.Success? {
      BatchExtendsIssued(pool, issued, BatchStart(pool).value);
    }
  }

  /** A batch starts at or below the first unissued id, so ids stay issued without gaps. */
  lemma BatchExtendsIssued(pool: Pool, issued: set<u32>, start: u32)
    requires issued != {} && issued == Interval(1, Max(issued)) && pool.Keys <= issued
    requires BatchStart(pool) == Success(start) && BatchFits(start)
    ensures start in Batch(start) && start <= Max(issued) + 1
    ensures var all := issued + Batch(start);
      && all != {} && all == Interval(1, Max(all))
      && Max(all) <= Max(issued) + REPLENISH_COUNT
  {
  }

  lemma RemoveStep(pool: Pool, issued: set<u32>, batches: nat, removed: nat, id: u32, removed': nat)
    requires PoolInv(pool, issued, batches, removed)
    requires removed' == removed + if id in pool then 1 else 0
    ensures PoolInv(pool - {id}, issued, batches, removed')
  {
  }

  ghost predicate EventClockOk(event: Event, from: nat) {
    event.Maintain? ==> ReadingsOk(event.clock, from)
  }

  /** The last 32-bit id is in use and due by `end`. */
  ghost predicate OutOfIds(log: seq<Issue>, end: nat) {
    |log| == U32_MAX && end - log[|log| - 1].record.timestamp >= DUE_AGE
  }

  lemma MaintainInv(h: History, clock: Readings, drawn: Material)
    requires Inv(h) && ReadingsOk(clock, h.now)
    ensures match Advance(h, Maintain(clock, drawn))
      case Success(next) =>
        && Inv(next) && next.now == clock.kyberSweep
        && h.signedLog <= next.signedLog && h.kyberLog <= next.kyberLog
        && |next.stores.pool| >= MIN_PRE_KEY_COUNT
      case Failure(_) =>
        OutOfIds(h.signedLog, clock.kyberSweep) || OutOfIds(h.kyberLog, clock.kyberSweep) || h.removed + 149 > U32_MAX
  {
    var st := h.stores;
    LineStep(st.signed, h.signedLog, h.now, clock.signedCheck, clock.signedMade, clock.signedSweep, drawn.signed);
    LineStep(st.kyber, h.kyberLog, h.now, clock.kyberCheck, clock.kyberMade, clock.kyberSweep, drawn.kyber);
    TopUpStep(st.pool, h.issued, h.batches, h.removed, drawn.batch);
    MaintainedParts(st, clock, drawn);
    var r := Maintained(st, clock, drawn).1;
    if r.Success? {
      var signed := RotatedIfDue(st.signed, clock.signedCheck, clock.signedMade, drawn.signed).0;
      LogInvLater(Cleaned(signed, clock.signedSweep).value,
        Logged(h.signedLog, st.signed, r.value.signedRotated, clock.signedCheck, clock.signedMade, drawn.signed),
        clock.signedSweep, clock.kyberSweep);
    }
  }

  /** A maintenance succeeds exactly when each of its parts does, and then each store is what
      its own part makes of it. */
  lemma MaintainedParts(st: Stores, clock: Readings, drawn: Material)
    requires HasIdentity(st) && GRACE <= clock.signedSweep <= clock.kyberSweep
    ensures var (after, r) := Maintained(st, clock, drawn);
      var (signed, r1) := RotatedIfDue(st.signed, clock.signedCheck, clock.signedMade, drawn.signed);
      var (kyber, r2) := RotatedIfDue(st.kyber, clock.kyberCheck, clock.kyberMade, drawn.kyber);
      var (pool, r3) := ToppedUp(st.pool, drawn.batch);
      && (r.Success? <==> r1.Success? && r2.Success? && r3.Success?)
      && (r.Success? ==>
           && after == st.(signed := Cleaned(signed, clock.signedSweep).value,
                           kyber := Cleaned(kyber, clock.kyberSweep).value, pool := pool)
           && r.value == Report(Generated(st.pool, pool), r1.value, r2.value))
  {
  }

  lemma ConsumeInv(h: History, id: u32, draws: Draws)
    requires Inv(h)
    ensures match Advance(h, Consume(id, draws))
      case Success(next) => Inv(next) && |next.stores.pool| >= MIN_PRE_KEY_COUNT
      case Failure(_) => h.removed + 150 > U32_MAX
  {
    var removed := h.removed + if id in h.stores.pool then 1 else 0;
    RemoveStep(h.stores.pool, h.issued, h.batches, h.removed, id, removed);
    TopUpStep(h.stores.pool - {id}, h.issued, h.batches, removed, draws);
    var r := Advance(h, Consume(id, draws));
    if r.Success? {
      assert LogsOf(r.value) == LogsOf(h);
    }
  }

  /** What consuming and removing one-time keys does not concern. */
  function LogsOf(h: History): (Option<PeerStores.LocalRow>, Keys, seq<Issue>, Keys, seq<Issue>, nat) {
    (h.stores.local, h.stores.signed, h.signedLog, h.stores.kyber, h.kyberLog, h.now)
  }

  lemma AdvanceInv(h: History, event: Event)
    requires Inv(h) && EventClockOk(event, h.now)
    ensures Advance(h, event).Success? ==>
      var next := Advance(h, event).value;
      && Inv(next)
      && next.now == (if event.Maintain? then event.clock.kyberSweep else h.now)
      && h.signedLog <= next.signedLog && h.kyberLog <= next.kyberLog
      && h.issued <= next.issued
      && h.removed <= next.removed <= h.removed + (if event.Consume? || event.Remove? then 1 else 0)
      && (event.Maintain? || event.Consume? ==> |next.stores.pool| >= MIN_PRE_KEY_COUNT)
  {
    match event
    case Maintain(clock, drawn) => MaintainInv(h, clock, drawn);
    case Consume(id, draws) => ConsumeInv(h, id, draws);
    case Remove(id) =>
      RemoveStep(h.stores.pool, h.issued, h.batches, h.removed, id, Advance(h, event).value.removed);
    case Reopen(_, _, _, _, _) => ReopenChangesNothing(h, event);
  }

  /** Opening the database again finds the identity and leaves everything alone. */
  lemma ReopenChangesNothing(h: History, reopen: Event)
    requires HasIdentity(h.stores) && reopen.Reopen?
    ensures Advance(h, reopen) == Success(h)
  {
  }

  lemma LogInvLater(keys: Keys, log: seq<Issue>, now: nat, later: nat)
    requires LogInv(keys, log, now) && now <= later
    ensures LogInv(keys, log, later)
  {
  }

  lemma {:induction false} RunInv(h: History, events: seq<Event>)
    requires Inv(h) && ClockOk(events, h.now) && Run(h, events).Success?
    ensures var end := Run(h, events).value;
      Inv(end) && h.signedLog <= end.signedLog && h.kyberLog <= end.kyberLog && h.issued <= end.issued
    decreases |events|
  {
    if events != [] {
      AdvanceInv(h, events[0]);
      RunInv(Advance(h, events[0]).value, events[1..]);
    }
  }

  // ------------------------------------------------------------------ reachable histories

  /** The inputs of first-run setup. */
  datatype Start = Start(identity: KeyPair, randomId: u32, signedMade: u64, kyberMade: u64, drawn: Material)

  function BornOf(s: Start): History {
    Born(s.identity, s.randomId, s.signedMade, s.kyberMade, s.drawn)
  }

  /** `h` is the history of some run from first-run setup under an honest clock. */
  ghost predicate Reachable(h: History) {
    exists s: Start, events: seq<Event> ::
      s.signedMade <= s.kyberMade && ClockOk(events, s.kyberMade) && Run(BornOf(s), events) == Success(h)
  }

  lemma ReachableInv(h: History)
    requires Reachable(h)
    ensures Inv(h)
  {
    var s: Start, events: seq<Event> :|
      s.signedMade <= s.kyberMade && ClockOk(events, s.kyberMade) && Run(BornOf(s), events) == Success(h);
    BornInv(s.identity, s.randomId, s.signedMade, s.kyberMade, s.drawn);
    RunInv(BornOf(s), events);
  }

  // ------------------------------------------------------------------ the local identity

  lemma AdvanceKeepsLocal(h: History, event: Event)
    requires HasIdentity(h.stores) && Advance(h, event).Success?
    ensures Advance(h, event).value.stores.local == h.stores.local
  {
    match event
    case Maintain(clock, drawn) => MaintenanceSucceedsIff(h.stores, clock, drawn);
    case Reopen(_, _, _, _, _) => ReopenChangesNothing(h, event);
    case _ =>
  }

  lemma {:induction false} RunKeepsLocal(h: History, events: seq<Event>)
    requires HasIdentity(h.stores) && Run(h, events).Success?
    ensures Run(h, events).value.stores.local == h.stores.local
    decreases |events|
  {
    if events != [] {
      AdvanceKeepsLocal(h, events[0]);
      RunKeepsLocal(Advance(h, events[0]).value, events[1..]);
    }
  }

  /** Whatever happens after first-run setup, whatever the clock reads, the local identity stays the
      one drawn then, and every bundle carries its registration id and the largest id of each kind. */
  lemma BundlesCarryTheFirstIdentity(s: Start, events: seq<Event>)
    requires Run(BornOf(s), events).Success?
    ensures var st := Run(BornOf(s), events).value.stores;
      && st.local == Some(PeerStores.LocalRow(s.randomId % 0x4000, Some(s.identity)))
      && (Published(st).Success? ==>
           && Published(st).value.registrationId == s.randomId % 0x4000
           && IsMax(st.pool.Keys, Published(st).value.preKeyId)
           && IsMax(st.signed.Keys, Published(st).value.signedId)
           && IsMax(st.kyber.Keys, Published(st).value.kyberId))
  {
    SetUpOutcome(EMPTY, s.identity, s.randomId, s.signedMade, s.kyberMade, s.drawn);
    var born := BornOf(s);
    assert born.stores.local == Some(PeerStores.LocalRow(s.randomId % 0x4000, Some(s.identity)));
    RunKeepsLocal(born, events);
    PublishedIff(Run(born, events).value.stores);
  }

  lemma {:induction false} ReopenAnywhere(h: History, earlier: seq<Event>, reopen: Event, later: seq<Event>)
    requires HasIdentity(h.stores) && reopen.Reopen?
    ensures Run(h, earlier + [reopen] + later) == Run(h, earlier + later)
    decreases |earlier|
  {
    var all := earlier + [reopen] + later;
    if earlier == [] {
      assert all[0] == reopen && all[1..] == later && earlier + later == later;
      ReopenChangesNothing(h, reopen);
    } else {
      assert all[0] == earlier[0] && all[1..] == earlier[1..] + [reopen] + later;
      assert (earlier + later)[0] == earlier[0] && (earlier + later)[1..] == earlier[1..] + later;
      if Advance(h, earlier[0]).Success? {
        AdvanceKeepsLocal(h, earlier[0]);
        ReopenAnywhere(Advance(h, earlier[0]).value, earlier[1..], reopen, later);
      }
    }
  }

  /** Opening the database once more, anywhere in a run from first-run setup and whatever setup
      would have drawn, changes neither the final history nor whether the run gets there. */
  lemma ReopeningIsInvisible(s: Start, earlier: seq<Event>, reopen: Event, later: seq<Event>)
    requires reopen.Reopen?
    ensures Run(BornOf(s), earlier + [reopen] + later) == Run(BornOf(s), earlier + later)
  {
    ReopenAnywhere(BornOf(s), earlier, reopen, later);
  }

  // ------------------------------------------------------------------ rotations

  lemma {:induction false} LogSpan(keys: Keys, log: seq<Issue>, now: nat, i: nat, j: nat)
    requires LogInv(keys, log, now) && i <= j < |log|
    ensures log[j].check >= log[i].check + (j - i) * DUE_AGE
    ensures log[j].record.timestamp >= log[i].record.timestamp + (j - i) * DUE_AGE
    decreases j
  {
    if i < j {
      LogSpan(keys, log, now, i, j - 1);
      assert log[j - 1].record.timestamp + DUE_AGE <= log[j - 1 + 1].check;
    }
  }

  /** In every run, the readings that led to any two rotations of a kind are at least `DUE_AGE`
      apart for each rotation between them, the first key counting as one. */
  lemma RotationsAreSpaced(h: History, i: nat, j: nat)
    requires Reachable(h) && i <= j
    ensures j < |h.signedLog| ==> h.signedLog[j].check - h.signedLog[i].check >= (j - i) * DUE_AGE
    ensures j < |h.kyberLog| ==> h.kyberLog[j].check - h.kyberLog[i].check >= (j - i) * DUE_AGE
  {
    ReachableInv(h);
    if j < |h.signedLog| { LogSpan(h.stores.signed, h.signedLog, h.now, i, j); }
    if j < |h.kyberLog| { LogSpan(h.stores.kyber, h.kyberLog, h.now, i, j); }
  }

  /** In every run, exactly one key of each kind is stored between operations: the last one
      issued, whose id is the number of keys issued so far. */
  lemma OneKeyOfEachKind(h: History)
    requires Reachable(h)
    ensures HoldsOnlyLast(h.stores.signed, h.signedLog) && HoldsOnlyLast(h.stores.kyber, h.kyberLog)
  {
    ReachableInv(h);
  }

  // ------------------------------------------------------------------ publishing

  lemma SingleNewest(keys: Keys, log: seq<Issue>, now: nat)
    requires LogInv(keys, log, now)
    ensures keys != map[] && Max(keys.Keys) == |log| && Newest(keys) == log[|log| - 1].record
  {
    assert keys.Keys == {|log|};
  }

  /** Between operations a bundle can be published unless every one-time key has been removed. */
  lemma PublishableIff(h: History)
    requires Reachable(h)
    ensures Published(h.stores).Success? <==> h.stores.pool != map[]
  {
    ReachableInv(h);
    SingleNewest(h.stores.signed, h.signedLog, h.now);
    SingleNewest(h.stores.kyber, h.kyberLog, h.now);
  }

  /** After a maintenance a bundle can always be published, from keys that are in the stores, and
      its signed and Kyber keys were less than `DUE_AGE` old when they were checked. */
  lemma MaintenanceMakesFreshBundle(h: History, clock: Readings, drawn: Material)
    requires Reachable(h) && ReadingsOk(clock, h.now)
    ensures var (after, r) := Maintained(h.stores, clock, drawn);
      r.Success? ==> Published(after).Success? && FreshBundle(after, Published(after).value, clock)
  {
    ReachableInv(h);
    MaintainInv(h, clock, drawn);
    MaintainedParts(h.stores, clock, drawn);
    if Maintained(h.stores, clock, drawn).1.Success? {
      var next := Advance(h, Maintain(clock, drawn)).value;
      SingleNewest(next.stores.signed, next.signedLog, next.now);
      SingleNewest(next.stores.kyber, next.kyberLog, next.now);
      LineFresh(h.stores.signed, h.signedLog, h.now, clock.signedCheck, clock.signedMade, clock.signedSweep, drawn.signed);
      LineFresh(h.stores.kyber, h.kyberLog, h.now, clock.kyberCheck, clock.kyberMade, clock.kyberSweep, drawn.kyber);
    }
  }

  /** The keys a bundle names are stored, and those with a timestamp were not due when checked. */
  ghost predicate FreshBundle(st: Stores, bundle: Bundle, clock: Readings) {
    && bundle.preKeyId in st.pool && bundle.signedId in st.signed && bundle.kyberId in st.kyber
    && clock.signedCheck < st.signed[bundle.signedId].timestamp + DUE_AGE
    && clock.kyberCheck < st.kyber[bundle.kyberId].timestamp + DUE_AGE
  }

  lemma LineFresh(keys: Keys, log: seq<Issue>, now: nat, check: u64, made: u64, sweep: u64, pair: KeyPair)
    requires LogInv(keys, log, now) && now <= check <= made <= sweep && GRACE <= sweep
    requires RotatedIfDue(keys, check, made, pair).1.Success?
    ensures var after := Cleaned(RotatedIfDue(keys, check, made, pair).0, sweep).value;
      after != map[] && check < Newest(after).timestamp + DUE_AGE
  {
    LineStep(keys, log, now, check, made, sweep, pair);
    var (rotated, r) := RotatedIfDue(keys, check, made, pair);
    SingleNewest(keys, log, now);
    SingleNewest(Cleaned(rotated, sweep).value, Logged(log, keys, r.value, check, made, pair), sweep);
  }

  // ------------------------------------------------------------------ idempotence

  /** A maintenance changes nothing and reports nothing exactly when no key is due and the pool
      is not low. */
  lemma MaintenanceIsNoOpIff(h: History, clock: Readings, drawn: Material)
    requires Reachable(h) && ReadingsOk(clock, h.now)
    ensures Maintained(h.stores, clock, drawn) == (h.stores, Success(Report(0, false, false))) <==>
      && Due(h.stores.signed, clock.signedCheck) == Success(false)
      && Due(h.stores.kyber, clock.kyberCheck) == Success(false)
      && |h.stores.pool| >= MIN_PRE_KEY_COUNT
  {
    ReachableInv(h);
    var st := h.stores;
    MaintainedParts(st, clock, drawn);
    LineStep(st.signed, h.signedLog, h.now, clock.signedCheck, clock.signedMade, clock.signedSweep, drawn.signed);
    LineStep(st.kyber, h.kyberLog, h.now, clock.kyberCheck, clock.kyberMade, clock.kyberSweep, drawn.kyber);
    TopUpStep(st.pool, h.issued, h.batches, h.removed, drawn.batch);
    BatchAddsAHundred(st.pool, drawn.batch);
  }

  function AllAt(t: u64): Readings {
    Readings(t, t, t, t, t, t)
  }

  /** One kind of key, looked at twice at the same instant. */
  lemma LineIdempotent(keys: Keys, t: u64, pair: KeyPair)
    requires Orderly(keys, t) && GRACE <= t && RotatedIfDue(keys, t, t, pair).1.Success?
    ensures var after := Cleaned(RotatedIfDue(keys, t, t, pair).0, t).value;
      Due(after, t) == Success(false) && Cleaned(after, t) == Success(after)
  {
    var (rotated, r) := RotatedIfDue(keys, t, t, pair);
    if r.value {
      OrderlyRotation(keys, t, t, pair, rotated);
    }
    CleanedIsQuiet(rotated, t);
  }

  lemma CleanedIsQuiet(keys: Keys, t: u64)
    requires Orderly(keys, t) && GRACE <= t && Due(keys, t) == Success(false)
    ensures var after := Cleaned(keys, t).value;
      Due(after, t) == Success(false) && Cleaned(after, t) == Success(after)
  {
    var after := Cleaned(keys, t).value;
    OrderlyCleanup(keys, t, t, after);
    if Expired(Sqlite, keys, Cutoff(t)) != keys.Keys {
      assert Expired(Sqlite, after, Cutoff(t)) == {};
      assert after - {} == after;
    }
  }

  /** Maintenance is idempotent at a fixed instant, from any stores whose timestamps follow their
      ids: the second run reports nothing and changes nothing. */
  lemma MaintenanceIsIdempotent(st: Stores, t: u64, first: Material, second: Material)
    requires Orderly(st.signed, t) && Orderly(st.kyber, t) && GRACE <= t
    ensures var (after, r) := Maintained(st, AllAt(t), first);
      r.Success? ==> Maintained(after, AllAt(t), second) == (after, Success(Report(0, false, false)))
  {
    if Maintained(st, AllAt(t), first).1.Failure? {
      return;
    }
    MaintainedParts(st, AllAt(t), first);
    LineIdempotent(st.signed, t, first.signed);
    LineIdempotent(st.kyber, t, first.kyber);
    BatchAddsAHundred(st.pool, first.batch);
    QuietMaintenance(Maintained(st, AllAt(t), first).0, t, second);
  }

  lemma QuietMaintenance(st: Stores, t: u64, drawn: Material)
    requires HasIdentity(st) && |st.pool| >= MIN_PRE_KEY_COUNT
    requires Due(st.signed, t) == Success(false) && Cleaned(st.signed, t) == Success(st.signed)
    requires Due(st.kyber, t) == Success(false) && Cleaned(st.kyber, t) == Success(st.kyber)
    ensures Maintained(st, AllAt(t), drawn) == (st, Success(Report(0, false, false)))
  {
  }

  // ------------------------------------------------------------------ one-time pre-keys

  /** In every run: live keys are the ones issued less the ones removed; the batches replenished
      stay within the removals; and the ids issued are 1 up to some id that exceeds the removals by
      at most 149. */
  lemma PoolIsConserved(h: History)
    requires Reachable(h)
    ensures h.batches >= 1
    ensures |h.stores.pool| == REPLENISH_COUNT * h.batches - h.removed
    ensures REPLENISH_COUNT * (h.batches - 1) <= h.removed + 49
    ensures |h.stores.pool| <= 149
    ensures h.stores.pool.Keys <= h.issued
    ensures h.issued != {} && h.issued == Interval(1, Max(h.issued)) && Max(h.issued) <= h.removed + 149
  {
    ReachableInv(h);
  }

  /** Every step that checks the pool leaves at least fifty keys, and a maintenance generates
      none or exactly a hundred. */
  lemma PoolStaysStocked(h: History, event: Event)
    requires Reachable(h) && EventClockOk(event, h.now)
    ensures Advance(h, event).Success? && (event.Maintain? || event.Consume?) ==>
      |Advance(h, event).value.stores.pool| >= MIN_PRE_KEY_COUNT
    ensures Advance(h, event).Success? && event.Maintain? ==>
      var report := Maintained(h.stores, event.clock, event.drawn).1.value;
      report.preKeysGenerated == if |h.stores.pool| < MIN_PRE_KEY_COUNT then REPLENISH_COUNT else 0
  {
    ReachableInv(h);
    AdvanceInv(h, event);
    if event.Maintain? {
      MaintainedParts(h.stores, event.clock, event.drawn);
      BatchAddsAHundred(h.stores.pool, event.drawn.batch);
    }
  }

  /** One-time ids can be issued twice.  The ids issued so far are always 1 up to some newest id
      without gaps, and a batch reissues some of them exactly when that newest id is not live. */
  lemma BatchReissuesIff(pool: Pool, issued: set<u32>, batches: nat, removed: nat)
    requires PoolInv(pool, issued, batches, removed) && |pool| < MIN_PRE_KEY_COUNT && NewIds(pool) != {}
    ensures !(NewIds(pool) !! issued) <==> Max(issued) !in pool
  {
  }

  /** Bundles publish the largest live id.  Whenever consuming the published key is what makes
      the pool low, the batch this triggers reissues an id. */
  lemma ConsumingPublishedKeyReissues(h: History, draws: Draws)
    requires Reachable(h)
    ensures |h.stores.pool| == MIN_PRE_KEY_COUNT ==>
      var id := Max(h.stores.pool.Keys);
      Advance(h, Consume(id, draws)).Success? ==> !(NewIds(h.stores.pool - {id}) !! h.issued)
  {
    ReachableInv(h);
    var pool := h.stores.pool;
    if |pool| == MIN_PRE_KEY_COUNT {
      var id := Max(pool.Keys);
      if Advance(h, Consume(id, draws)).Success? {
        assert ToppedUp(pool - {id}, draws).1.Success?;
        ToppingUpReissues(pool, h.issued, h.batches, h.removed, id, h.removed + 1, draws);
      }
    }
  }

  lemma ToppingUpReissues(pool: Pool, issued: set<u32>, batches: nat, removed: nat, id: u32, removed': nat, draws: Draws)
    requires PoolInv(pool, issued, batches, removed) && |pool| == MIN_PRE_KEY_COUNT
    requires id == Max(pool.Keys) && removed' == removed + 1 && ToppedUp(pool - {id}, draws).1.Success?
    ensures !(NewIds(pool - {id}) !! issued)
  {
    RemoveStep(pool, issued, batches, removed, id, removed');
    assert id in pool && id in issued;
    assert (pool - {id}).Keys == pool.Keys - {id};
    BatchIsNotEmpty(pool - {id}, draws);
    BatchReissuesIff(pool - {id}, issued, batches, removed');
  }

  /** Peers using up the published one-time key, `k` times over. */
  function UsePublished(h: History, k: nat): seq<Event>
    decreases k
  {
    if k == 0 || Published(h.stores).Failure? then []
    else
      var use := Remove(Published(h.stores).value.preKeyId);
      [use] + UsePublished(Advance(h, use).value, k - 1)
  }

  lemma TopOfInterval(n: nat)
    requires 1 <= n <= U32_MAX
    ensures n in Interval(1, n) && Max(Interval(1, n)) == n && Interval(1, n) - {n} == Interval(1, n - 1)
  {
    assert InInterval(1, n, n);
    assert IsMax(Interval(1, n), n);
  }

  lemma UseOnePublished(h: History, n: nat)
    requires Inv(h) && 1 <= n <= U32_MAX && h.stores.pool.Keys == Interval(1, n)
    ensures Published(h.stores).Success? && Published(h.stores).value.preKeyId == n
    ensures var next := Advance(h, Remove(n)).value;
      Inv(next) && next.stores.pool.Keys == Interval(1, n - 1) && next.issued == h.issued && next.now == h.now
  {
    TopOfInterval(n);
    SingleNewest(h.stores.signed, h.signedLog, h.now);
    SingleNewest(h.stores.kyber, h.kyberLog, h.now);
    AdvanceInv(h, Remove(n));
    assert (h.stores.pool - {n}).Keys == h.stores.pool.Keys - {n};
  }

  /** `events` run from `h` to a history with the ids 1 to `n` live and none issued since. */
  ghost predicate UsesDownTo(h: History, events: seq<Event>, n: nat)
    requires n <= U32_MAX
  {
    && ClockOk(events, h.now)
    && Run(h, events).Success?
    && Inv(Run(h, events).value)
    && Run(h, events).value.stores.pool.Keys == Interval(1, n)
    && Run(h, events).value.issued == h.issued
  }

  lemma RemoveThenRest(h: History, id: u32, rest: seq<Event>, n: nat)
    requires n <= U32_MAX
    requires var next := Advance(h, Remove(id)).value;
      next.now == h.now && next.issued == h.issued && UsesDownTo(next, rest, n)
    ensures UsesDownTo(h, [Remove(id)] + rest, n)
  {
    var events := [Remove(id)] + rest;
    assert events[0] == Remove(id) && events[1..] == rest;
    assert Run(h, events) == Run(Advance(h, Remove(id)).value, rest);
  }

  lemma {:induction false} UsePublishedRun(h: History, k: nat, n: nat, left: nat)
    requires Inv(h) && n == left + k <= U32_MAX && h.stores.pool.Keys == Interval(1, n)
    ensures UsesDownTo(h, UsePublished(h, k), left)
    decreases k
  {
    if k > 0 {
      UseOnePublished(h, n);
      var next := Advance(h, Remove(n)).value;
      UsePublishedRun(next, k - 1, n - 1, left);
      RemoveThenRest(h, n, UsePublished(next, k - 1), left);
    }
  }

  /** The next use of the published key, 50, issues the ids 50 to 100 a second time. */
  ghost predicate AboutToReissue(h: History, draws: Draws) {
    && |h.stores.pool| == MIN_PRE_KEY_COUNT
    && Published(h.stores).Success? && Published(h.stores).value.preKeyId == 50
    && Advance(h, Consume(50, draws)).Success?
    && NewIds(h.stores.pool - {50}) * h.issued == Interval(50, 51)
  }

  lemma FiftyLeft(h: History, draws: Draws)
    requires Inv(h) && h.stores.pool.Keys == Interval(1, 50) && h.issued == Interval(1, 100)
    ensures AboutToReissue(h, draws)
  {
    UseOnePublished(h, 50);
    IntervalSize(1, 50);
    assert |h.stores.pool.Keys| == 50;
    LowPoolBatch(h.stores.pool - {50}, draws);
  }

  /** From any first-run setup: once peers have used up the published key fifty times, a reachable
      history, consuming the key published next issues fifty-one ids a second time. */
  lemma PublishedKeysAreReissued(s: Start, draws: Draws)
    requires s.signedMade <= s.kyberMade
    ensures var r := Run(BornOf(s), UsePublished(BornOf(s), 50));
      r.Success? && Reachable(r.value) && AboutToReissue(r.value, draws)
  {
    var born := BornOf(s);
    BornPool(s);
    UsePublishedRun(born, 50, 100, 50);
    var h := Run(born, UsePublished(born, 50)).value;
    assert Reachable(h);
    FiftyLeft(h, draws);
  }

  lemma BornPool(s: Start)
    requires s.signedMade <= s.kyberMade
    ensures Inv(BornOf(s)) && BornOf(s).stores.pool.Keys == BornOf(s).issued == Interval(1, 100)
    ensures BornOf(s).now == s.kyberMade
  {
    BornInv(s.identity, s.randomId, s.signedMade, s.kyberMade, s.drawn);
    BatchAddsAHundred(map[], s.drawn.batch);
  }

  lemma LowPoolBatch(pool: Pool, draws: Draws)
    requires pool.Keys == Interval(1, 49)
    ensures ToppedUp(pool, draws).1.Success? && NewIds(pool) == Interval(50, 100)
    ensures NewIds(pool) * Interval(1, 100) == Interval(50, 51)
  {
    IntervalSize(1, 49);
    assert |pool.Keys| == 49;
    TopOfInterval(49);
    forall i: u32 ensures i in Interval(50, 100) * Interval(1, 100) <==> InInterval(50, 51, i) {
      assert i in Interval(50, 100) <==> InInterval(50, 100, i);
      assert i in Interval(1, 100) <==> InInterval(1, 100, i);
    }
  }

  lemma BatchIsNotEmpty(pool: Pool, draws: Draws)
    requires ToppedUp(pool, draws).1.Success? && |pool| < MIN_PRE_KEY_COUNT
    ensures NewIds(pool) != {}
  {
    var start := BatchStart(pool).value;
    assert InInterval(start, REPLENISH_COUNT, start);
    assert start in NewIds(pool);
  }

  // ------------------------------------------------------------------ no overflow

  function Removals(events: seq<Event>): nat
    decreases |events|
  {
    if events == [] then 0
    else (if events[0].Consume? || events[0].Remove? then 1 else 0) + Removals(events[1..])
  }

  /** The last reading of a run. */
  function EndOf(events: seq<Event>, from: nat): nat
    decreases |events|
  {
    if events == [] then from
    else EndOf(events[1..], if events[0].Maintain? then events[0].clock.kyberSweep else from)
  }

  lemma {:induction false} EndIsLast(events: seq<Event>, from: nat)
    requires ClockOk(events, from)
    ensures EndOf(events, from) >= from
    decreases |events|
  {
    if events != [] {
      EndIsLast(events[1..], if events[0].Maintain? then events[0].clock.kyberSweep else from);
    }
  }

  /** A run that ends at `end` after `removals` more removals stays clear of the last 32-bit id. */
  ghost predicate WithinBudget(h: History, end: nat, removals: nat) {
    && h.signedLog != [] && h.kyberLog != []
    && h.removed + removals + 149 <= U32_MAX
    && end - h.signedLog[0].record.timestamp < U32_MAX * DUE_AGE
    && end - h.kyberLog[0].record.timestamp < U32_MAX * DUE_AGE
  }

  /** A log that has used up every id spans longer than the budget. */
  lemma LogWithinBudget(keys: Keys, log: seq<Issue>, now: nat, end: nat)
    requires LogInv(keys, log, now) && end - log[0].record.timestamp < U32_MAX * DUE_AGE
    ensures !OutOfIds(log, end)
  {
    LogSpan(keys, log, now, 0, |log| - 1);
  }

  lemma MaintainWithinBudget(h: History, clock: Readings, drawn: Material, rest: seq<Event>)
    requires Inv(h) && ReadingsOk(clock, h.now) && ClockOk(rest, clock.kyberSweep)
    requires WithinBudget(h, EndOf(rest, clock.kyberSweep), Removals(rest))
    ensures Advance(h, Maintain(clock, drawn)).Success?
  {
    EndIsLast(rest, clock.kyberSweep);
    LogWithinBudget(h.stores.signed, h.signedLog, h.now, clock.kyberSweep);
    LogWithinBudget(h.stores.kyber, h.kyberLog, h.now, clock.kyberSweep);
    MaintainInv(h, clock, drawn);
  }

  /** No run overflows: with an honest clock, fewer than 2^32 - 149 removals and less than some
      82 million years, every operation of the run succeeds. */
  lemma {:induction false} RunsNeverOverflow(h: History, events: seq<Event>)
    requires Inv(h) && ClockOk(events, h.now) && WithinBudget(h, EndOf(events, h.now), Removals(events))
    ensures Run(h, events).Success?
    decreases |events|
  {
    if events != [] {
      var event, rest := events[0], events[1..];
      match event {
        case Maintain(clock, drawn) => MaintainWithinBudget(h, clock, drawn, rest);
        case Consume(id, draws) => ConsumeInv(h, id, draws);
        case Remove(id) =>
        case Reopen(_, _, _, _, _) => ReopenChangesNothing(h, event);
      }
      AdvanceInv(h, event);
      RunsNeverOverflow(Advance(h, event).value, rest);
    }
  }

  /** In particular from first-run setup. */
  lemma NoRunFromSetupOverflows(s: Start, events: seq<Event>)
    requires s.signedMade <= s.kyberMade && ClockOk(events, s.kyberMade)
    requires Removals(events) + 149 <= U32_MAX
    requires EndOf(events, s.kyberMade) - s.signedMade < U32_MAX * DUE_AGE
    ensures Run(BornOf(s), events).Success?
  {
    BornInv(s.identity, s.randomId, s.signedMade, s.kyberMade, s.drawn);
    RunsNeverOverflow(BornOf(s), events);
  }
}
