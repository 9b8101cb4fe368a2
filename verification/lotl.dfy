/** The key-holding part of the `Lotl` object: first-run setup, maintenance, bundle selection. */
module LotlKeys {
  import opened Basics
  import opened Ids
  import opened KeyTables
  import opened KeyRotation
  import opened PreKeyPools
  import PeerStores

  /** Everything the key lifecycle persists. */
  datatype Stores = Stores(local: Option<PeerStores.LocalRow>, signed: Keys, kyber: Keys, pool: Pool)

  const EMPTY: Stores := Stores(None, map[], map[], map[])

  predicate HasIdentity(st: Stores) {
    st.local.Some? && st.local.value.privateKey.Some?
  }

  /** The clock readings one maintenance takes, in the order it takes them. */
  datatype Readings = Readings(signedCheck: u64, signedMade: u64, kyberCheck: u64, kyberMade: u64,
                               signedSweep: u64, kyberSweep: u64)

  /** The key material one maintenance may draw. */
  datatype Material = Material(signed: KeyPair, kyber: KeyPair, batch: Draws)

  datatype Report = Report(preKeysGenerated: nat, signedRotated: bool, kyberRotated: bool)

  /** The registration id and key ids a published bundle carries. */
  datatype Bundle = Bundle(registrationId: u32, preKeyId: u32, signedId: u32, kyberId: u32)

  // ------------------------------------------------------------------ what each operation does

  function RotatedIfDue(keys: Keys, check: u64, made: u64, pair: KeyPair): (Keys, Result<bool>) {
    match Due(keys, check)
    case Failure(e) => (keys, Failure(e))
    case Success(due) =>
      if !due then (keys, Success(false))
      else match Rotated(keys, made, pair)
        case Failure(e) => (keys, Failure(e))
        case Success(after) => (after, Success(true))
  }

  /** A maintenance: its steps in order, stopping at the first failure. */
  function Maintained(st: Stores, clock: Readings, drawn: Material): (Stores, Result<Report>) {
    var signed := RotatedIfDue(st.signed, clock.signedCheck, clock.signedMade, drawn.signed);
    var kyber := RotatedIfDue(st.kyber, clock.kyberCheck, clock.kyberMade, drawn.kyber);
    InSequence(st, signed, kyber, ToppedUp(st.pool, drawn.batch),
               Cleaned(signed.0, clock.signedSweep), Cleaned(kyber.0, clock.kyberSweep))
  }

  /** What the outcomes of the steps amount to when taken in sequence. */
  function InSequence(st: Stores, signed: (Keys, Result<bool>), kyber: (Keys, Result<bool>), pool: (Pool, Result<()>),
                      sweptSigned: Result<Keys>, sweptKyber: Result<Keys>): (Stores, Result<Report>)
  {
    if !HasIdentity(st) then (st, Failure(NoIdentity)) else
    var s1 := st.(signed := signed.0);
    if signed.1.Failure? then (s1, Failure(signed.1.error)) else
    var s2 := s1.(kyber := kyber.0);
    if kyber.1.Failure? then (s2, Failure(kyber.1.error)) else
    var s3 := s2.(pool := pool.0);
    if pool.1.Failure? then (s3, Failure(pool.1.error))
    else if sweptSigned.Failure? then (s3, Failure(sweptSigned.error)) else
    var s4 := s3.(signed := sweptSigned.value);
    if sweptKyber.Failure? then (s4, Failure(sweptKyber.error)) else
    (s4.(kyber := sweptKyber.value), Success(Report(Generated(st.pool, pool.0), signed.1.value, kyber.1.value)))
  }

  /** The saturating difference of the counts before and after. */
  function Generated(before: Pool, after: Pool): nat {
    if |after| >= |before| then |after| - |before| else 0
  }

  /** First-run setup: a no-op once an identity exists. */
  function SetUp(st: Stores, identity: KeyPair, randomId: u32, signedMade: u64, kyberMade: u64,
                 drawn: Material): (Stores, Result<()>)
  {
    if HasIdentity(st) then (st, Success(())) else
    var keyed := st.(local := Some(PeerStores.LocalRow(randomId % 0x4000, Some(identity))),
                     signed := st.signed[1 := KeyRecord(1, signedMade, drawn.signed)],
                     kyber := st.kyber[1 := KeyRecord(1, kyberMade, drawn.kyber)]);
    match Replenished(st.pool, drawn.batch)
    case Failure(e) => (keyed, Failure(e))
    case Success(pool) => (keyed.(pool := pool), Success(()))
  }

  function Published(st: Stores): Result<Bundle> {
    if !HasIdentity(st) then Failure(NoIdentity)
    else if st.pool == map[] || st.signed == map[] || st.kyber == map[] then Failure(KeyNotFound)
    else Success(Bundle(st.local.value.registrationId, Max(st.pool.Keys),
                        Max(st.signed.Keys), Max(st.kyber.Keys)))
  }

  // ------------------------------------------------------------------ what setup and publishing mean

  ghost predicate HasKeyPair(local: Option<PeerStores.LocalRow>) {
    exists id, pair :: local == Some(PeerStores.LocalRow(id, Some(pair)))
  }

  /** The record is stored under the id and every other key is as it was. */
  ghost predicate Adds(after: Keys, before: Keys, id: u32, record: KeyRecord) {
    && id in after && after[id] == record
    && forall i | i != id :: (i in after <==> i in before) && (i in before ==> after[i] == before[i])
  }

  /** Setup leaves a database with a key pair alone; any other gets the identity, key 1 of both
      kinds and, unless ids run out, a first batch. */
  lemma SetUpOutcome(st: Stores, identity: KeyPair, randomId: u32, signedMade: u64, kyberMade: u64, drawn: Material)
    ensures var (after, r) := SetUp(st, identity, randomId, signedMade, kyberMade, drawn);
      && (HasKeyPair(st.local) ==> after == st && r == Success(()))
      && (!HasKeyPair(st.local) ==>
           && after.local == Some(PeerStores.LocalRow(randomId % 0x4000, Some(identity)))
           && Adds(after.signed, st.signed, 1, KeyRecord(1, signedMade, drawn.signed))
           && Adds(after.kyber, st.kyber, 1, KeyRecord(1, kyberMade, drawn.kyber))
           && (r.Success? ==> AddsABatch(after.pool, st.pool, drawn.batch))
           && (r.Failure? ==> after.pool == st.pool && r.error == Overflow))
  {
    HasKeyPairIff(st);
    if Replenished(st.pool, drawn.batch).Success? {
      ReplenishedAddsABatch(st.pool, drawn.batch);
    }
  }

  lemma HasKeyPairIff(st: Stores)
    ensures HasIdentity(st) <==> HasKeyPair(st.local)
  {
    if HasIdentity(st) {
      assert st.local == Some(PeerStores.LocalRow(st.local.value.registrationId, Some(st.local.value.privateKey.value)));
    }
  }

  /** The bundle carries the stored registration id and the largest key id of each kind. */
  ghost predicate Names(bundle: Bundle, st: Stores) {
    && st.local.Some? && bundle.registrationId == st.local.value.registrationId
    && IsMax(st.pool.Keys, bundle.preKeyId)
    && IsMax(st.signed.Keys, bundle.signedId)
    && IsMax(st.kyber.Keys, bundle.kyberId)
  }

  /** A bundle can be published exactly from a key pair and a key of each kind. */
  lemma PublishedIff(st: Stores)
    ensures Published(st).Success? <==>
      HasKeyPair(st.local) && st.pool != map[] && st.signed != map[] && st.kyber != map[]
    ensures Published(st).Success? ==> Names(Published(st).value, st)
    ensures Published(st).Failure? ==> Published(st).error == if HasKeyPair(st.local) then KeyNotFound else NoIdentity
  {
    HasKeyPairIff(st);
  }

  // ------------------------------------------------------------------ what maintenance means, from any stores

  /** What one maintenance does to a kind of key, from any store: it rotates exactly when nothing
      is stored or the newest key is due, and leaves at least one key. */
  ghost predicate Renewed(before: Keys, after: Keys, rotated: bool, check: u64, made: u64, pair: KeyPair) {
    && (rotated <==> before == map[] || exists top :: IsNewest(before, top, check, 604_801_000))
    && after != map[]
    && (before == map[] ==> after == map[1 := KeyRecord(1, made, pair)])
    && (forall id | id in after :: (id in before && after[id] == before[id]) || after[id] == KeyRecord(id, made, pair))
  }

  lemma RenewedByParts(keys: Keys, check: u64, made: u64, sweep: u64, pair: KeyPair, rotated: Keys, due: bool)
    requires RotatedIfDue(keys, check, made, pair) == (rotated, Success(due)) && Cleaned(rotated, sweep).Success?
    ensures Renewed(keys, Cleaned(rotated, sweep).value, due, check, made, pair)
  {
    DueIff(keys, check);
    var after := Cleaned(rotated, sweep).value;
    SqliteCleanupIsDeterministic(rotated, sweep, after);
    CleanupAnyOrder(Sqlite, rotated, sweep, after);
    if keys == map[] {
      assert rotated == map[1 := KeyRecord(1, made, pair)];
      OneRecordKept(rotated, after);
    }
  }

  lemma OneRecordKept(keys: Keys, after: Keys)
    requires keys.Keys == {1} && after != map[] && forall id | id in after :: id in keys && after[id] == keys[id]
    ensures after == keys
  {
    assert forall id | id in after :: id == 1;
    assert forall id | id in keys :: id == 1;
    assert 1 in after;
  }

  /** What one maintenance does to the pool, from any pool. */
  ghost predicate Stocked(before: Pool, after: Pool, generated: nat, draws: Draws) {
    && |after| >= 50
    && generated == |after| - |before|
    && (if |before| >= 50 then after == before else AddsABatch(after, before, draws))
  }

  lemma StockedByTopUp(pool: Pool, draws: Draws)
    requires ToppedUp(pool, draws).1.Success?
    ensures var after := ToppedUp(pool, draws).0; Stocked(pool, after, Generated(pool, after), draws)
  {
    if |pool| < 50 {
      BatchAddsAHundred(pool, draws);
      ReplenishedAddsABatch(pool, draws);
    }
  }

  /** A step of one kind of key cannot fail on these inputs: the clock is not behind its newest
      record, and there is an id left if that record is due. */
  ghost predicate CanRenew(keys: Keys, check: u64) {
    keys != map[] ==> exists top | top in keys ::
      && (forall id | id in keys :: id <= top)
      && keys[top].timestamp <= check
      && (top == 0xFFFF_FFFF ==> check < keys[top].timestamp + 604_801_000)
  }

  lemma CanRenewIff(keys: Keys, check: u64, made: u64, pair: KeyPair)
    ensures RotatedIfDue(keys, check, made, pair).1.Success? <==> CanRenew(keys, check)
    ensures RotatedIfDue(keys, check, made, pair).1.Failure? ==>
      RotatedIfDue(keys, check, made, pair) == (keys, Failure(Overflow))
  {
    if keys != map[] {
      var newest := Max(keys.Keys);
      assert forall top | top in keys && (forall id | id in keys :: id <= top) :: top == newest;
    }
  }

  /** From any stores, a maintenance succeeds exactly with a key pair, no overflow and clock
      readings past the first seven days of the epoch.  Without a key pair it does nothing, and
      every other failure is an overflow.  The local row is never touched and no one-time key is
      ever lost. */
  lemma MaintenanceSucceedsIff(st: Stores, clock: Readings, drawn: Material)
    ensures var (after, r) := Maintained(st, clock, drawn);
      && (r.Success? <==>
           && HasKeyPair(st.local)
           && CanRenew(st.signed, clock.signedCheck) && CanRenew(st.kyber, clock.kyberCheck)
           && (|st.pool| < 50 ==> forall id | id in st.pool :: id + 100 <= 0xFFFF_FFFF)
           && clock.signedSweep >= 604_800_000 && clock.kyberSweep >= 604_800_000)
      && (!HasKeyPair(st.local) ==> after == st && r == Failure(NoIdentity))
      && (r.Failure? && HasKeyPair(st.local) ==> r.error == Overflow)
      && after.local == st.local
      && (forall id | id in st.pool :: id in after.pool && after.pool[id] == st.pool[id])
  {
    HasKeyPairIff(st);
    CanRenewIff(st.signed, clock.signedCheck, clock.signedMade, drawn.signed);
    CanRenewIff(st.kyber, clock.kyberCheck, clock.kyberMade, drawn.kyber);
    BatchAddsAHundred(st.pool, drawn.batch);
  }

  /** Whatever the stores held - an interrupted setup may have left some empty - a maintenance that
      succeeds leaves both kinds of key and at least fifty one-time keys, so that a bundle can be
      published.  It reports a rotation exactly for an empty table or a due key, and an empty table
      gets key 1. */
  lemma MaintenanceRestocks(st: Stores, clock: Readings, drawn: Material)
    ensures var (after, r) := Maintained(st, clock, drawn);
      r.Success? ==>
        && Renewed(st.signed, after.signed, r.value.signedRotated, clock.signedCheck, clock.signedMade, drawn.signed)
        && Renewed(st.kyber, after.kyber, r.value.kyberRotated, clock.kyberCheck, clock.kyberMade, drawn.kyber)
        && Stocked(st.pool, after.pool, r.value.preKeysGenerated, drawn.batch)
        && Published(after).Success?
  {
    var (after, r) := Maintained(st, clock, drawn);
    if r.Success? {
      var (signed, r1) := RotatedIfDue(st.signed, clock.signedCheck, clock.signedMade, drawn.signed);
      var (kyber, r2) := RotatedIfDue(st.kyber, clock.kyberCheck, clock.kyberMade, drawn.kyber);
      RenewedByParts(st.signed, clock.signedCheck, clock.signedMade, clock.signedSweep, drawn.signed, signed, r1.value);
      RenewedByParts(st.kyber, clock.kyberCheck, clock.kyberMade, clock.kyberSweep, drawn.kyber, kyber, r2.value);
      StockedByTopUp(st.pool, drawn.batch);
      assert HasIdentity(after);
    }
  }

  // ------------------------------------------------------------------ the object

  class Lotl {
    const peers: PeerStores.SqlitePeers
    const signed: KeyTable
    const kyber: KeyTable
    const preKeys: PreKeyStore

    ghost predicate Valid()
      reads peers, signed, kyber, preKeys
    {
      && signed != kyber
      && signed.backend == Sqlite && kyber.backend == Sqlite
      && signed.Valid() && kyber.Valid()
    }

    ghost function Contents(): Stores
      reads peers, signed, kyber, preKeys
    {
      Stores(peers.localIdentity, signed.Records(), kyber.Records(), preKeys.preKeys)
    }

    constructor ()
      ensures Valid() && fresh(peers) && fresh(signed) && fresh(kyber) && fresh(preKeys)
      ensures Contents() == EMPTY
    {
      var l := new PeerStores.SqlitePeers();
      var s := new KeyTable(Sqlite);
      var k := new KeyTable(Sqlite);
      var p := new PreKeyStore();
      peers, signed, kyber, preKeys := l, s, k, p;
    }

    method EnsureIdentityInitialized(pair: KeyPair, randomId: u32, signedMade: u64, kyberMade: u64,
                                     drawn: Material)
      returns (r: Result<()>)
      requires Valid()
      modifies peers, signed, kyber, preKeys
      ensures Valid()
      ensures (Contents(), r) == SetUp(old(Contents()), pair, randomId, signedMade, kyberMade, drawn)
      ensures old(HasKeyPair(peers.localIdentity)) ==> Contents() == old(Contents()) && r == Success(())
      ensures !old(HasKeyPair(peers.localIdentity)) ==>
        && peers.localIdentity == Some(PeerStores.LocalRow(randomId % 0x4000, Some(pair)))
        && Adds(signed.Records(), old(signed.Records()), 1, KeyRecord(1, signedMade, drawn.signed))
        && Adds(kyber.Records(), old(kyber.Records()), 1, KeyRecord(1, kyberMade, drawn.kyber))
        && (r.Success? ==> AddsABatch(preKeys.preKeys, old(preKeys.preKeys), drawn.batch))
        && (r.Failure? ==> preKeys.preKeys == old(preKeys.preKeys) && r.error == Overflow)
    {
      SetUpOutcome(Contents(), pair, randomId, signedMade, kyberMade, drawn);
      r := Success(());
      var existing := peers.GetIdentityKeyPair();
      if existing.Failure? {
        SetLocalIdentity(pair, randomId % 0x4000);
        signed.Save(1, KeyRecord(1, signedMade, drawn.signed));
        kyber.Save(1, KeyRecord(1, kyberMade, drawn.kyber));
        r := Replenish(preKeys, drawn.batch);
      }
    }

    method SetLocalIdentity(pair: KeyPair, registrationId: u32)
      modifies peers
      ensures peers.localIdentity == Some(PeerStores.LocalRow(registrationId, Some(pair)))
    {
      var _ := peers.Perform(PeerStores.SetLocalKeyPair(pair));
      var _ := peers.Perform(PeerStores.SetRegistrationId(registrationId));
    }

    method RotateIfDue(store: KeyTable, check: u64, made: u64, pair: KeyPair) returns (r: Result<bool>)
      requires store.Valid()
      modifies store
      ensures store.Valid()
      ensures (store.Records(), r) == RotatedIfDue(old(store.Records()), check, made, pair)
    {
      r := NeedsRotation(store, check);
      if r == Success(true) {
        var rotated := Rotate(store, made, pair);
        if rotated.Failure? {
          r := Failure(rotated.error);
        }
      }
    }

    method PerformKeyMaintenance(clock: Readings, drawn: Material) returns (r: Result<Report>)
      requires Valid()
      modifies peers, signed, kyber, preKeys
      ensures Valid()
      ensures (Contents(), r) == Maintained(old(Contents()), clock, drawn)
    {
      var identityKeyPair := peers.GetIdentityKeyPair();
      if identityKeyPair.Failure? {
        return Failure(identityKeyPair.error);
      }
      var signedRotated := RotateIfDue(signed, clock.signedCheck, clock.signedMade, drawn.signed);
      if signedRotated.Failure? {
        return Failure(signedRotated.error);
      }
      var kyberRotated := RotateIfDue(kyber, clock.kyberCheck, clock.kyberMade, drawn.kyber);
      if kyberRotated.Failure? {
        return Failure(kyberRotated.error);
      }
      var countBefore := |preKeys.preKeys|;
      var toppedUp := TopUp(drawn.batch);
      if toppedUp.Failure? {
        return Failure(toppedUp.error);
      }
      var countAfter := |preKeys.preKeys|;
      var generated := if countAfter >= countBefore then countAfter - countBefore else 0;

      var swept := CleanupSqlite(signed, clock.signedSweep);
      if swept.Failure? {
        return Failure(swept.error);
      }
      swept := CleanupSqlite(kyber, clock.kyberSweep);
      if swept.Failure? {
        return Failure(swept.error);
      }
      r := Success(Report(generated, signedRotated.value, kyberRotated.value));
    }

    method TopUp(draws: Draws) returns (r: Result<()>)
      modifies preKeys
      ensures (preKeys.preKeys, r) == ToppedUp(old(preKeys.preKeys), draws)
    {
      r := Success(());
      if |preKeys.preKeys| < MIN_PRE_KEY_COUNT {
        r := Replenish(preKeys, draws);
      }
    }

    method CleanupSqlite(store: KeyTable, now: u64) returns (r: Result<()>)
      requires store.Valid() && store.backend == Sqlite
      modifies store
      ensures store.Valid()
      ensures match Cleaned(old(store.Records()), now)
              case Success(keys) => r == Success(()) && store.Records() == keys
              case Failure(e) => r == Failure(e) && store.Records() == old(store.Records())
    {
      r := Cleanup(store, now);
      if now >= GRACE {
        SqliteCleanupIsDeterministic(old(store.Records()), now, store.Records());
      }
    }

    method GeneratePrekeyBundle() returns (r: Result<Bundle>)
      requires Valid()
      ensures r == Published(Contents())
      ensures r.Success? ==> Names(r.value, Contents())
      ensures r.Success? <==>
        HasKeyPair(peers.localIdentity) && preKeys.preKeys != map[] && signed.Records() != map[] && kyber.Records() != map[]
      ensures r.Failure? ==> r.error == if HasKeyPair(peers.localIdentity) then KeyNotFound else NoIdentity
    {
      PublishedIff(Contents());
      var identityKeyPair := peers.GetIdentityKeyPair();
      if identityKeyPair.Failure? {
        return Failure(identityKeyPair.error);
      }
      var registrationId := peers.GetLocalRegistrationId();
      assert registrationId.Success?;
      var preKeyId := preKeys.MaxId();
      if preKeyId.None? {
        return Failure(KeyNotFound);
      }
      var signedId := signed.MaxId();
      if signedId.None? {
        return Failure(KeyNotFound);
      }
      var signedRecord := signed.Get(signedId.value);
      assert signedRecord.Success?;
      var kyberId := kyber.MaxId();
      if kyberId.None? {
        return Failure(KeyNotFound);
      }
      var kyberRecord := kyber.Get(kyberId.value);
      assert kyberRecord.Success?;
      r := Success(Bundle(registrationId.value, preKeyId.value, signedId.value, kyberId.value));
    }
  }
}
