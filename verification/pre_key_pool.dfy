/** The pool of one-time pre-keys: consumed one by one, replenished in batches. */
module PreKeyPools {
  import opened Basics
  import opened Ids

  const MIN_PRE_KEY_COUNT: nat := 50
  const REPLENISH_COUNT: nat := 100

  type Pool = map<u32, KeyPair>

  /** The random generator: the pair drawn for the i-th key of a batch. */
  type Draws = nat -> KeyPair

  // ------------------------------------------------------------------ what each operation does

  /** The id the next batch starts at, if it fits 32 bits. */
  function BatchStart(pool: Pool): Result<u32> {
    if pool == map[] then Success(1)
    else if Max(pool.Keys) == U32_MAX then Failure(Overflow)
    else Success(Max(pool.Keys) + 1)
  }

  predicate BatchFits(start: u32) {
    start + (REPLENISH_COUNT - 1) <= U32_MAX
  }

  function Batch(start: u32): set<u32>
    requires BatchFits(start)
  {
    Interval(start, REPLENISH_COUNT)
  }

  /** The first `n` keys of a batch. */
  function FreshKeys(start: u32, n: nat, draws: Draws): Pool
    requires start + n <= U32_MAX + 1
  {
    map id | id in Interval(start, n) :: draws(id - start)
  }

  /** The pool after a batch: the old keys as they were, plus one key for each id of the batch. */
  function Replenished(pool: Pool, draws: Draws): Result<Pool> {
    match BatchStart(pool)
    case Failure(e) => Failure(e)
    case Success(start) =>
      if !BatchFits(start) then Failure(Overflow)
      else Success(pool + FreshKeys(start, REPLENISH_COUNT, draws))
  }

  /** The pool after topping up if it is low; a failed batch saves nothing. */
  function ToppedUp(pool: Pool, draws: Draws): (Pool, Result<()>) {
    if |pool| >= MIN_PRE_KEY_COUNT then (pool, Success(()))
    else match Replenished(pool, draws)
      case Failure(e) => (pool, Failure(e))
      case Success(p) => (p, Success(()))
  }

  function Consumed(pool: Pool, id: u32, draws: Draws): (Pool, Result<()>) {
    ToppedUp(pool - {id}, draws)
  }

  // ------------------------------------------------------------------ the store and its operations

  class PreKeyStore {
    var preKeys: Pool

    constructor ()
      ensures preKeys == map[]
    {
      preKeys := map[];
    }

    method Save(id: u32, pair: KeyPair)
      modifies this
      ensures preKeys == old(preKeys)[id := pair]
    {
      preKeys := preKeys[id := pair];
    }

    method Delete(id: u32)
      modifies this
      ensures preKeys == old(preKeys) - {id}
    {
      preKeys := preKeys - {id};
    }

    method MaxId() returns (r: Option<u32>)
      ensures r.None? <==> preKeys == map[]
      ensures r.Some? ==> IsMax(preKeys.Keys, r.value)
    {
      r := if preKeys == map[] then None else Some(Max(preKeys.Keys));
    }
  }

  /** Consecutive ids from `start`, each with a fresh pair; fails when an id leaves 32 bits. */
  method GeneratePreKeys(start: u32, count: nat, draws: Draws) returns (r: Result<seq<(u32, KeyPair)>>)
    ensures r.Success? <==> count == 0 || start + (count - 1) <= U32_MAX
    ensures r.Failure? ==> r.error == Overflow
    ensures r.Success? ==> |r.value| == count
    ensures r.Success? ==> forall i | 0 <= i < count :: r.value[i] == (start + i, draws(i))
  {
    var preKeys: seq<(u32, KeyPair)> := [];
    for i := 0 to count
      invariant |preKeys| == i && (i == 0 || start + (i - 1) <= U32_MAX)
      invariant forall k | 0 <= k < i :: preKeys[k] == (start + k, draws(k))
    {
      if start + i > U32_MAX {
        return Failure(Overflow);
      }
      preKeys := preKeys + [(start + i, draws(i))];
    }
    r := Success(preKeys);
  }

  method Replenish(store: PreKeyStore, draws: Draws) returns (r: Result<()>)
    modifies store
    ensures match Replenished(old(store.preKeys), draws)
            case Success(p) => r == Success(()) && store.preKeys == p
            case Failure(e) => r == Failure(e) && store.preKeys == old(store.preKeys)
  {
    var nextId := NextBatchId(store);
    if nextId.Failure? {
      return Failure(nextId.error);
    }
    var generated := GeneratePreKeys(nextId.value, REPLENISH_COUNT, draws);
    if generated.Failure? {
      return Failure(generated.error);
    }
    SaveAll(store, nextId.value, generated.value, REPLENISH_COUNT, draws);
    r := Success(());
  }

  method NextBatchId(store: PreKeyStore) returns (r: Result<u32>)
    ensures r == BatchStart(store.preKeys)
  {
    var maxId := store.MaxId();
    if maxId.None? {
      return Success(1);
    }
    r := if maxId.value == U32_MAX then Failure(Overflow) else Success(maxId.value + 1);
  }

  /** The saving loop of a replenishment. */
  method SaveAll(store: PreKeyStore, start: u32, newPreKeys: seq<(u32, KeyPair)>, ghost n: nat, ghost draws: Draws)
    requires |newPreKeys| == n && start + n <= U32_MAX + 1
    requires forall i | 0 <= i < |newPreKeys| :: newPreKeys[i] == (start + i, draws(i))
    modifies store
    ensures store.preKeys == old(store.preKeys) + FreshKeys(start, n, draws)
  {
    for i := 0 to |newPreKeys|
      invariant store.preKeys == old(store.preKeys) + FreshKeys(start, i, draws)
    {
      OneMoreKey(old(store.preKeys), start, i, draws);
      assert newPreKeys[i] == (start + i, draws(i));
      store.Save(newPreKeys[i].0, newPreKeys[i].1);
    }
  }

  lemma OneMoreKey(pool: Pool, start: u32, i: nat, draws: Draws)
    requires start + i <= U32_MAX
    ensures pool + FreshKeys(start, i + 1, draws) == (pool + FreshKeys(start, i, draws))[start + i := draws(i)]
  {
  }

  method ConsumePreKey(store: PreKeyStore, id: u32, draws: Draws) returns (r: Result<()>)
    modifies store
    ensures (store.preKeys, r) == Consumed(old(store.preKeys), id, draws)
  {
    store.Delete(id);
    var currentCount := |store.preKeys|;
    r := Success(());
    if currentCount < MIN_PRE_KEY_COUNT {
      r := Replenish(store, draws);
    }
  }

  // ------------------------------------------------------------------ what a batch guarantees

  /** A batch adds exactly a hundred keys, overwrites none, and fails exactly when its last id
      would leave 32 bits. */
  lemma BatchAddsAHundred(pool: Pool, draws: Draws)
    ensures Replenished(pool, draws).Success? <==>
      pool == map[] || Max(pool.Keys) + REPLENISH_COUNT <= U32_MAX
    ensures Replenished(pool, draws).Success? ==>
      var start, after := BatchStart(pool).value, Replenished(pool, draws).value;
      && BatchFits(start)
      && pool.Keys !! Batch(start)
      && after.Keys == pool.Keys + Batch(start)
      && |after| == |pool| + REPLENISH_COUNT
      && forall id | id in pool :: after[id] == pool[id]
  {
    if Replenished(pool, draws).Success? {
      FreshKeysAreNew(pool, BatchStart(pool).value, REPLENISH_COUNT, draws);
    }
  }

  lemma FreshKeysAreNew(pool: Pool, start: u32, n: nat, draws: Draws)
    requires start + n <= U32_MAX + 1 && forall id | id in pool :: id < start
    ensures var after := pool + FreshKeys(start, n, draws);
      && pool.Keys !! Interval(start, n)
      && after.Keys == pool.Keys + Interval(start, n)
      && |after| == |pool| + n
      && forall id | id in pool :: after[id] == pool[id]
  {
    var after := pool + FreshKeys(start, n, draws);
    assert after.Keys == pool.Keys + Interval(start, n);
    IntervalSize(start, n);
    assert |after.Keys| == |pool.Keys| + |Interval(start, n)|;
  }

  /** The old keys are as they were, and a hundred consecutive ids above them name the pairs drawn. */
  ghost predicate AddsABatch(after: Pool, before: Pool, draws: Draws) {
    exists start: u32 :: AddsABatchAt(after, before, start, draws)
  }

  ghost predicate AddsABatchAt(after: Pool, before: Pool, start: u32, draws: Draws) {
    && start >= 1
    && (before == map[] ==> start == 1)
    && (forall id | id in before :: id < start && id in after && after[id] == before[id])
    && (before != map[] ==> exists id :: id in before && start == id + 1)
    && (forall id: u32 :: id in after <==> id in before || start <= id < start + 100)
    && (forall id: u32 | start <= id < start + 100 :: id in after && after[id] == draws(id - start))
  }

  lemma ReplenishedAddsABatch(pool: Pool, draws: Draws)
    requires Replenished(pool, draws).Success?
    ensures AddsABatch(Replenished(pool, draws).value, pool, draws)
  {
    var start, after := BatchStart(pool).value, Replenished(pool, draws).value;
    BatchAddsAHundred(pool, draws);
    assert forall id: u32 :: id in Batch(start) <==> InInterval(start, 100, id);
    assert AddsABatchAt(after, pool, start, draws);
  }

  /** Consuming an id leaves at least fifty keys unless ids ran out, and never the consumed key:
      if its id is present afterwards, it names a newly drawn pair. */
  lemma ConsumeKeepsPoolStocked(pool: Pool, id: u32, draws: Draws)
    ensures var (after, r) := Consumed(pool, id, draws);
      && (r.Success? ==> |after| >= MIN_PRE_KEY_COUNT)
      && (forall i | i in pool && i != id :: i in after && after[i] == pool[i])
      && (id in after ==>
           && r.Success?
           && |pool - {id}| < MIN_PRE_KEY_COUNT
           && id >= BatchStart(pool - {id}).value
           && after[id] == draws(id - BatchStart(pool - {id}).value))
  {
    BatchAddsAHundred(pool - {id}, draws);
  }

  /** A batch is added exactly when fewer than fifty keys are left; consuming fails exactly when it
      would not fit, and then only the consumed key has gone. */
  lemma ConsumeTopsUpIff(pool: Pool, id: u32, draws: Draws, rest: Pool)
    requires rest == pool - {id}
    ensures var (after, r) := Consumed(pool, id, draws);
      && (r.Failure? <==> |rest| < 50 && exists i | i in rest :: i + 100 > 0xFFFF_FFFF)
      && (r.Failure? ==> after == rest && r.error == Overflow)
      && (r.Success? ==> if |rest| >= 50 then after == rest else AddsABatch(after, rest, draws))
  {
    BatchAddsAHundred(rest, draws);
    if Replenished(rest, draws).Success? {
      ReplenishedAddsABatch(rest, draws);
    }
  }
}
