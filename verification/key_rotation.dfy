/** Rotation and cleanup of signed and Kyber pre-keys.  Clock readings are parameters. */
module KeyRotation {
  import opened Basics
  import opened Ids
  import opened KeyTables

  const ROTATION_INTERVAL_SECS: nat := 7 * 24 * 60 * 60
  const GRACE_PERIOD_SECS: nat := 7 * 24 * 60 * 60

  /** The age in milliseconds at which a key first counts as older than the rotation interval:
      the age in seconds is truncated, so this is a second more than seven days. */
  const DUE_AGE: nat := (ROTATION_INTERVAL_SECS + 1) * 1000
  const GRACE: nat := GRACE_PERIOD_SECS * 1000

  /** Keys stamped before this reading are past the grace period. */
  function Cutoff(now: u64): u64
    requires now >= GRACE
  {
    now - GRACE
  }

  // ------------------------------------------------------------------ what each operation does

  function Newest(keys: Keys): KeyRecord
    requires keys != map[]
  {
    keys[Max(keys.Keys)]
  }

  /** The id the next rotation uses, if it fits 32 bits. */
  function NextId(keys: Keys): Result<u32> {
    var top: u32 := if keys == map[] then 0 else Max(keys.Keys);
    if top == U32_MAX then Failure(Overflow) else Success(top + 1)
  }

  function Rotated(keys: Keys, made: u64, pair: KeyPair): Result<Keys> {
    match NextId(keys)
    case Failure(e) => Failure(e)
    case Success(id) => Success(keys[id := KeyRecord(id, made, pair)])
  }

  function Due(keys: Keys, now: u64): Result<bool> {
    if keys == map[] then Success(true)
    else if now < Newest(keys).timestamp then Failure(Overflow)
    else Success((now - Newest(keys).timestamp) / 1000 > ROTATION_INTERVAL_SECS)
  }

  /** What cleanup leaves: the keys that are not expired or, when every key is expired, one of
      them - the newest one if the expired ids were scanned in ascending order. */
  ghost predicate CleanedUp(backend: Backend, before: Keys, cutoff: u64, after: Keys) {
    if before != map[] && Expired(backend, before, cutoff) == before.Keys then KeepsOne(backend, before, after)
    else KeepsUnexpired(backend, before, cutoff, after)
  }

  ghost predicate KeepsUnexpired(backend: Backend, before: Keys, cutoff: u64, after: Keys) {
    after == before - Expired(backend, before, cutoff)
  }

  ghost predicate KeepsOne(backend: Backend, before: Keys, after: Keys)
    requires before != map[]
  {
    exists id | id in before :: after == Only(before, id) && (backend.Sqlite? ==> id == Max(before.Keys))
  }

  function Only<T>(m: map<u32, T>, id: u32): map<u32, T>
    requires id in m
  {
    map[id := m[id]]
  }

  /** Cleanup over SQLite, as a function. */
  function Cleaned(keys: Keys, now: u64): Result<Keys> {
    if now < GRACE then Failure(Overflow)
    else
      var expired := Expired(Sqlite, keys, Cutoff(now));
      Success(if keys == map[] || expired != keys.Keys then keys - expired
              else Only(keys, Max(keys.Keys)))
  }

  // ------------------------------------------------------------------ the guarded delete loop

  /** The ids left after deleting the doomed ones in turn, each only while more than one is left. */
  function Sweep(live: set<u32>, doomed: seq<u32>): set<u32>
    decreases |doomed|
  {
    if doomed == [] then live
    else Sweep(if |live| > 1 then live - {doomed[0]} else live, doomed[1..])
  }

  /** What deleting an enumeration of `ids` leaves: everything doomed goes if something else is
      left; otherwise exactly the last one enumerated stays. */
  function Left(live: set<u32>, doomed: seq<u32>, ids: set<u32>): set<u32> {
    if doomed != [] && ids == live then {doomed[|doomed| - 1]} else live - ids
  }

  lemma {:induction false} SweepOutcome(live: set<u32>, doomed: seq<u32>, ids: set<u32>)
    requires Enumerates(doomed, ids) && ids <= live
    ensures Sweep(live, doomed) == Left(live, doomed, ids)
    decreases |doomed|
  {
    if doomed == [] {
      assert ids == {};
    } else {
      var first, rest := doomed[0], doomed[1..];
      EnumerationTail(doomed, ids);
      if |live| > 1 {
        DropOne(live, first, ids);
        SweepOutcome(live - {first}, rest, ids - {first});
        assert rest == [] ==> ids == {first};
      } else {
        AtMostOne(live, first);
        assert ids == {first};
        EnumerationLength(doomed, ids);
        assert rest == [];
      }
    }
  }

  lemma DropOne(live: set<u32>, k: u32, ids: set<u32>)
    requires |live| > 1 && k in ids && ids <= live
    ensures live - {k} != {} && ids - {k} <= live - {k}
    ensures ids - {k} == live - {k} <==> ids == live
    ensures live - {k} - (ids - {k}) == live - ids
  {
    assert |live - {k}| == |live| - 1;
    assert ids == ids - {k} + {k} && live == live - {k} + {k};
  }

  lemma AtMostOne(ids: set<u32>, k: u32)
    requires k in ids && |ids| <= 1
    ensures ids == {k}
  {
    assert |ids - {k}| == |ids| - 1;
  }

  // ------------------------------------------------------------------ the operations on a store

  method Rotate(store: KeyTable, made: u64, pair: KeyPair) returns (r: Result<()>)
    requires store.Valid()
    modifies store
    ensures store.Valid()
    ensures match Rotated(old(store.Records()), made, pair)
            case Success(keys) => r == Success(()) && store.Records() == keys
            case Failure(e) => r == Failure(e) && store.Records() == old(store.Records())
  {
    var maxId := store.MaxId();
    var currentMaxId: u32 := match maxId case Some(id) => id case None => 0;
    if currentMaxId == U32_MAX {
      return Failure(Overflow);
    }
    store.Save(currentMaxId + 1, KeyRecord(currentMaxId + 1, made, pair));
    r := Success(());
  }

  /** The answer for each store and clock: an empty store is in need of a key, the record under the
      largest id is replaced from 604 801 seconds on, and a clock behind it is an overflow. */
  method NeedsRotation(store: KeyTable, now: u64) returns (r: Result<bool>)
    ensures r == Due(store.Records(), now)
    ensures r == Success(true) <==>
      store.Records() == map[] || exists top :: IsNewest(store.Records(), top, now, 604_801_000)
    ensures r.Failure? ==> r.error == Overflow
    ensures r.Failure? <==> exists top | top in store.Records() ::
      (forall id | id in store.Records() :: id <= top) && now < store.Records()[top].timestamp
  {
    DueIff(store.Records(), now);
    var maxId := store.MaxId();
    if maxId.None? {
      return Success(true);
    }
    var current := store.Get(maxId.value);
    var timestamp := current.value.timestamp;
    if now < timestamp {
      return Failure(Overflow);
    }
    var ageSecs := (now - timestamp) / 1000;
    r := Success(ageSecs > ROTATION_INTERVAL_SECS);
  }

  method Cleanup(store: KeyTable, now: u64) returns (r: Result<()>)
    requires store.Valid()
    modifies store
    ensures store.Valid()
    ensures r == if now < GRACE then Failure(Overflow) else Success(())
    ensures now < GRACE ==> store.Records() == old(store.Records())
    ensures now >= GRACE ==> CleanedUp(store.backend, old(store.Records()), Cutoff(now), store.Records())
  {
    if now < GRACE {
      return Failure(Overflow);
    }
    var cutoff := Cutoff(now);
    ghost var before := store.Records();
    var expiredIds := store.OlderThan(cutoff);
    ghost var expired := Expired(store.backend, before, cutoff);
    var count := store.Count();
    assert store.Records() == before;
    if count > 1 {
      DeleteWhileSpare(store, expiredIds, expired);
    } else {
      NothingToSweep(before.Keys, expiredIds, expired);
    }
    SweptIsCleanedUp(store.backend, before, cutoff, expiredIds, store.Records());
    r := Success(());
  }

  /** The loop of cleanup: the live count is read again before each delete. */
  method DeleteWhileSpare(store: KeyTable, doomed: seq<u32>, ghost ids: set<u32>)
    requires store.Valid() && Enumerates(doomed, ids) && ids <= store.Records().Keys
    modifies store
    ensures store.Valid()
    ensures IsSubmap(store.Records(), old(store.Records()))
    ensures store.Records().Keys == Left(old(store.Records().Keys), doomed, ids)
  {
    SweepOutcome(store.Records().Keys, doomed, ids);
    for i := 0 to |doomed|
      invariant store.Valid()
      invariant IsSubmap(store.Records(), old(store.Records()))
      invariant Sweep(old(store.Records().Keys), doomed) == Sweep(store.Records().Keys, doomed[i..])
    {
      assert doomed[i..][0] == doomed[i] && doomed[i..][1..] == doomed[i + 1..];
      var count := store.Count();
      assert count == |store.Records().Keys|;
      if count > 1 {
        store.Delete(doomed[i]);
      }
    }
  }

  ghost predicate IsSubmap(m: Keys, of: Keys) {
    forall id | id in m :: id in of && m[id] == of[id]
  }

  /** With at most one key the early return leaves what the loop would. */
  lemma NothingToSweep(live: set<u32>, doomed: seq<u32>, ids: set<u32>)
    requires |live| <= 1 && Enumerates(doomed, ids) && ids <= live
    ensures live == Left(live, doomed, ids)
  {
    if doomed == [] {
      assert ids == {};
    } else {
      var last := doomed[|doomed| - 1];
      assert last in doomed;
      AtMostOne(live, last);
    }
  }

  /** Reading the loop's outcome as the closed form. */
  lemma SweptIsCleanedUp(backend: Backend, before: Keys, cutoff: u64, order: seq<u32>, after: Keys)
    requires Enumerates(order, Expired(backend, before, cutoff))
    requires backend.Sqlite? ==> Ascending(order)
    requires IsSubmap(after, before) && after.Keys == Left(before.Keys, order, Expired(backend, before, cutoff))
    ensures CleanedUp(backend, before, cutoff, after)
  {
  }

  // ------------------------------------------------------------------ what cleanup guarantees

  /** Over SQLite the outcome is a function of the store and the clock. */
  lemma SqliteCleanupIsDeterministic(keys: Keys, now: u64, after: Keys)
    requires now >= GRACE
    ensures CleanedUp(Sqlite, keys, Cutoff(now), after) <==> Cleaned(keys, now) == Success(after)
  {
  }

  /** Whatever the scan order: a non-empty store stays non-empty, nothing is changed or added,
      no key of seven days or less goes, and expired keys go whenever another key can stay. */
  lemma CleanupAnyOrder(backend: Backend, before: Keys, now: u64, after: Keys)
    requires now >= GRACE && CleanedUp(backend, before, Cutoff(now), after)
    ensures before != map[] ==> after != map[]
    ensures forall id | id in after :: id in before && after[id] == before[id]
    ensures forall id | id in before && id !in after :: now - before[id].timestamp > GRACE
    ensures (exists id | id in before :: !IsExpired(backend, before[id].timestamp, Cutoff(now))) ==>
      forall id | id in before :: id in after <==> !IsExpired(backend, before[id].timestamp, Cutoff(now))
    ensures before != map[] && (forall id | id in before :: IsExpired(backend, before[id].timestamp, Cutoff(now))) ==>
      |after| == 1
  {
    var expired := Expired(backend, before, Cutoff(now));
    if before != map[] && expired != before.Keys {
      var id :| id in before && id !in expired;
      assert id in after;
    } else if before != map[] {
      var id :| id in before && after == Only(before, id);
      assert id in after;
    }
  }

  /** Every stored timestamp is at most `now`, and timestamps do not decrease with the id. */
  ghost predicate Orderly(keys: Keys, now: u64) {
    && (forall id | id in keys :: keys[id].id == id && keys[id].timestamp <= now)
    && (forall i, j | i in keys && j in keys && i <= j :: keys[i].timestamp <= keys[j].timestamp)
  }

  /** On any store, the newest key survives a SQLite cleanup exactly when it is not expired or
      every other key is expired as well. */
  lemma NewestSurvivesIff(keys: Keys, now: u64, after: Keys)
    requires keys != map[] && Cleaned(keys, now) == Success(after)
    ensures Max(keys.Keys) in after <==>
      (IsExpired(Sqlite, Newest(keys).timestamp, Cutoff(now)) ==>
        forall id | id in keys :: IsExpired(Sqlite, keys[id].timestamp, Cutoff(now)))
  {
  }

  /** When timestamps follow the ids, that condition always holds: the newest key survives as
      it was, and the store stays orderly at every later reading. */
  lemma OrderlyCleanup(keys: Keys, earlier: u64, now: u64, after: Keys)
    requires Orderly(keys, earlier) && earlier <= now && Cleaned(keys, now) == Success(after)
    ensures Orderly(after, now)
    ensures keys != map[] ==> after != map[] && Max(after.Keys) == Max(keys.Keys) && Newest(after) == Newest(keys)
  {
    if keys != map[] {
      NewestSurvivesIff(keys, now, after);
      assert Max(keys.Keys) in after;
      assert forall id | id in after :: id in keys && after[id] == keys[id];
    }
  }

  /** On either backend a cleanup leaves an orderly store orderly, and loses the newest key in one
      way only: over the hash map, with every key expired and another one listed last. */
  lemma OrderlyCleanupAnyOrder(backend: Backend, keys: Keys, earlier: u64, now: u64, after: Keys)
    requires Orderly(keys, earlier) && earlier <= now && now >= GRACE && CleanedUp(backend, keys, Cutoff(now), after)
    ensures Orderly(after, now) && IsSubmap(after, keys)
    ensures keys != map[] ==>
      (Max(keys.Keys) !in after <==>
       && backend.Memory?
       && Expired(Memory, keys, Cutoff(now)) == keys.Keys
       && exists id | id in keys :: id != Max(keys.Keys) && after == Only(keys, id))
  {
    CleanupAnyOrder(backend, keys, now, after);
    if keys != map[] && Max(keys.Keys) in Expired(backend, keys, Cutoff(now)) {
      NewestExpiredAll(backend, keys, earlier, Cutoff(now));
      var id :| id in keys && after == Only(keys, id) && (backend.Sqlite? ==> id == Max(keys.Keys));
      assert Max(keys.Keys) in after <==> id == Max(keys.Keys);
    }
  }

  /** On an orderly store all keys are expired once the newest is. */
  lemma NewestExpiredAll(backend: Backend, keys: Keys, now: u64, cutoff: u64)
    requires Orderly(keys, now) && keys != map[] && IsExpired(backend, Newest(keys).timestamp, cutoff)
    ensures Expired(backend, keys, cutoff) == keys.Keys
  {
    forall id | id in keys ensures id in Expired(backend, keys, cutoff) {
      assert keys[id].timestamp <= Newest(keys).timestamp;
    }
  }

  lemma OrderlyRotation(keys: Keys, earlier: u64, made: u64, pair: KeyPair, after: Keys)
    requires Orderly(keys, earlier) && earlier <= made && Rotated(keys, made, pair) == Success(after)
    ensures Orderly(after, made)
    ensures after != map[] && Newest(after).timestamp == made
    ensures Max(after.Keys) == 1 + (if keys == map[] then 0 else Max(keys.Keys))
  {
    var id := NextId(keys).value;
    assert id in after.Keys && forall i | i in after.Keys :: i <= id;
    assert IsMax(after.Keys, id);
  }

  /** The record under the largest id, and at least `age` milliseconds old. */
  ghost predicate IsNewest(keys: Keys, top: u32, now: u64, age: nat) {
    && top in keys
    && (forall id | id in keys :: id <= top)
    && now >= keys[top].timestamp + age
  }

  /** A rotation is due exactly when nothing is stored or the record under the largest id is at
      least 604 801 000 milliseconds old; the check fails exactly when that record is ahead of the
      clock. */
  lemma DueIff(keys: Keys, now: u64)
    ensures Due(keys, now) == Success(true) <==>
      keys == map[] || exists top :: IsNewest(keys, top, now, 604_801_000)
    ensures Due(keys, now).Failure? <==>
      exists top | top in keys :: (forall id | id in keys :: id <= top) && now < keys[top].timestamp
    ensures Due(keys, now).Failure? ==> Due(keys, now).error == Overflow
  {
    if keys != map[] {
      var newest := Max(keys.Keys);
      assert forall top | top in keys && (forall id | id in keys :: id <= top) :: top == newest;
      assert IsNewest(keys, newest, now, 604_801_000) <==> Due(keys, now) == Success(true);
    }
  }

  /** A key old enough to be rotated is past the grace period at every later reading, whichever
      rounding the store applies. */
  lemma DueImpliesExpired(backend: Backend, timestamp: u64, check: u64, sweep: u64)
    requires timestamp <= check <= sweep
    requires (check - timestamp) / 1000 > ROTATION_INTERVAL_SECS
    ensures sweep >= GRACE && IsExpired(backend, timestamp, Cutoff(sweep))
  {
  }

  /** The converse fails in a window of less than a second, because the age is truncated to whole
      seconds.  Over the hash map the newest key is expired and not due exactly when it is more
      than seven days and less than seven days and a second old; over SQLite, which truncates both
      sides, exactly when the clock's second is one past the seventh day's but its milliseconds
      have not reached the key's. */
  lemma ExpiredBeforeDueIff(keys: Keys, now: u64)
    requires keys != map[] && Newest(keys).timestamp <= now && now >= GRACE
    ensures var ts := Newest(keys).timestamp;
      Due(keys, now) == Success(false) && IsExpired(Memory, ts, Cutoff(now)) <==> GRACE < now - ts < DUE_AGE
    ensures var ts := Newest(keys).timestamp;
      Due(keys, now) == Success(false) && IsExpired(Sqlite, ts, Cutoff(now)) <==>
      now / 1000 - ts / 1000 == ROTATION_INTERVAL_SECS + 1 && now % 1000 < ts % 1000
  {
  }

  /** Such a key and instant on both backends. */
  lemma ExpiredCanPrecedeDue()
    ensures exists keys: Keys, now: u64 ::
      keys != map[] && now >= GRACE && Due(keys, now) == Success(false) &&
      IsExpired(Sqlite, Newest(keys).timestamp, Cutoff(now)) && IsExpired(Memory, Newest(keys).timestamp, Cutoff(now))
  {
    var made: u64, now: u64 := 1_700_000_000_999, 1_700_604_801_000;
    var keys: Keys := map[1 := KeyRecord(1, made, KeyPair(0))];
    assert keys.Keys == {1};
    assert Max(keys.Keys) == 1;
    ExpiredBeforeDueIff(keys, now);
  }

  // ------------------------------------------------------------------ the two roundings compared

  /** SQLite's expired set is contained in the in-memory one, and they differ exactly on keys
      older than the cutoff but stamped within the cutoff's own second. */
  lemma ExpiryRefinement(keys: Keys, cutoff: u64)
    ensures Expired(Sqlite, keys, cutoff) <= Expired(Memory, keys, cutoff)
    ensures forall id | id in keys ::
      (id in Expired(Memory, keys, cutoff) && id !in Expired(Sqlite, keys, cutoff)) <==>
      (keys[id].timestamp < cutoff && keys[id].timestamp / 1000 == cutoff / 1000)
  {
  }

  /** Cleaning the same store at the same instant on both backends.  As long as the hash map still
      holds a key that is not expired, it keeps a subset of what SQLite keeps, and the surplus is
      exactly the keys stamped within the cutoff's second.  When it holds none it keeps one key,
      and that key is among SQLite's exactly when SQLite does not count it as expired or, counting
      all as expired, keeps it as the newest. */
  lemma CleanupRefinement(keys: Keys, cutoff: u64, sql: Keys, mem: Keys)
    requires CleanedUp(Sqlite, keys, cutoff, sql) && CleanedUp(Memory, keys, cutoff, mem)
    ensures keys == map[] || Expired(Memory, keys, cutoff) != keys.Keys ==>
      && mem.Keys <= sql.Keys
      && forall id :: id in sql && id !in mem <==>
           id in keys && keys[id].timestamp < cutoff && keys[id].timestamp / 1000 == cutoff / 1000
    ensures keys != map[] && Expired(Memory, keys, cutoff) == keys.Keys ==>
      exists kept | kept in keys :: mem == Only(keys, kept) &&
        (mem.Keys <= sql.Keys <==>
         || !IsExpired(Sqlite, keys[kept].timestamp, cutoff)
         || (Expired(Sqlite, keys, cutoff) == keys.Keys && kept == Max(keys.Keys)))
  {
    if keys != map[] && Expired(Memory, keys, cutoff) == keys.Keys {
      var kept :| kept in keys && mem == Only(keys, kept);
      assert mem.Keys <= sql.Keys <==> kept in sql;
    }
  }

  /** When every key is expired the hash map may keep any of them: unlike SQLite, it can delete
      the newest key and keep an older one. */
  lemma MemoryCleanupCanLoseNewest(keys: Keys, cutoff: u64, kept: u32)
    requires kept in keys && kept != Max(keys.Keys)
    requires Expired(Memory, keys, cutoff) == keys.Keys
    ensures CleanedUp(Memory, keys, cutoff, Only(keys, kept))
    ensures Max(keys.Keys) !in Only(keys, kept)
    ensures exists order :: Enumerates(order, keys.Keys) && Sweep(keys.Keys, order) == {kept}
  {
    var front := AnyOrder(keys.Keys - {kept});
    var order := front + [kept];
    assert Enumerates(order, keys.Keys);
    SweepOutcome(keys.Keys, order, keys.Keys);
  }

  /** On any store, the newest key is safe from an in-memory cleanup, whatever the listing order,
      exactly when it is not expired or is the only key. */
  lemma MemoryNewestSurvivesIff(keys: Keys, now: u64)
    requires keys != map[] && now >= GRACE
    ensures (forall after | CleanedUp(Memory, keys, Cutoff(now), after) :: Max(keys.Keys) in after) <==>
      !IsExpired(Memory, Newest(keys).timestamp, Cutoff(now)) || keys.Keys == {Max(keys.Keys)}
  {
    var cutoff, top := Cutoff(now), Max(keys.Keys);
    var expired := Expired(Memory, keys, cutoff);
    if top in expired && keys.Keys != {top} {
      if expired == keys.Keys {
        assert keys.Keys == keys.Keys - {top} + {top};
        assert keys.Keys - {top} != {};
        var kept :| kept in keys.Keys - {top};
        MemoryCleanupCanLoseNewest(keys, cutoff, kept);
      } else {
        assert CleanedUp(Memory, keys, cutoff, keys - expired);
      }
    }
  }

  lemma {:induction false} AnyOrder(ids: set<u32>) returns (order: seq<u32>)
    ensures Enumerates(order, ids)
    decreases |ids|
  {
    if ids == {} {
      order := [];
    } else {
      var x :| x in ids;
      var rest := AnyOrder(ids - {x});
      order := [x] + rest;
    }
  }
}
