/** One kind of key, signed or Kyber, under any interleaving of rotations and cleanups. */
module KeyLines {
  import opened Basics
  import opened Ids
  import opened KeyTables
  import opened KeyRotation

  /** Rotation and cleanup are public and may be called in any order.  A cleanup names what it
      left, which over the hash map depends on the listing order. */
  datatype LineEvent = RotateAt(made: u64, pair: KeyPair) | CleanupAt(now: u64, left: Keys)

  /** The store and every record issued so far, after running `events`. */
  function LineRun(keys: Keys, issued: seq<KeyRecord>, events: seq<LineEvent>): Result<(Keys, seq<KeyRecord>)>
    decreases |events|
  {
    if events == [] then Success((keys, issued))
    else match events[0]
      case RotateAt(made, pair) =>
        (match (NextId(keys), Rotated(keys, made, pair))
         case (Success(id), Success(after)) =>
           LineRun(after, issued + [KeyRecord(id, made, pair)], events[1..])
         case (_, Failure(e)) => Failure(e)
         case (Failure(e), _) => Failure(e))
      case CleanupAt(now, left) =>
        if now < GRACE then Failure(Overflow) else LineRun(left, issued, events[1..])
  }

  /** The clock never goes back, and each cleanup left what it can leave on this backend. */
  ghost predicate LineOk(backend: Backend, keys: Keys, events: seq<LineEvent>, from: nat)
    decreases |events|
  {
    events != [] ==>
      match events[0]
      case RotateAt(made, pair) =>
        from <= made &&
        (Rotated(keys, made, pair).Success? ==> LineOk(backend, Rotated(keys, made, pair).value, events[1..], made))
      case CleanupAt(now, left) =>
        from <= now &&
        (now >= GRACE ==> CleanedUp(backend, keys, Cutoff(now), left) && LineOk(backend, left, events[1..], now))
  }

  // ------------------------------------------------------------------ over SQLite

  /** Ids were issued as 1, 2, 3, ...; each stored key is the record issued under its id; and
      the last one issued is still stored. */
  ghost predicate LineInv(keys: Keys, issued: seq<KeyRecord>, now: nat) {
    && now <= U64_MAX
    && Orderly(keys, now)
    && |issued| <= U32_MAX
    && (forall i | 0 <= i < |issued| :: issued[i].id == i + 1)
    && (forall id | id in keys :: 1 <= id <= |issued| && keys[id] == issued[id - 1])
    && (issued != [] ==> |issued| in keys)
  }

  lemma LineInvNewest(keys: Keys, issued: seq<KeyRecord>, now: nat)
    requires LineInv(keys, issued, now)
    ensures keys == map[] <==> issued == []
    ensures keys != map[] ==> Max(keys.Keys) == |issued| && Newest(keys) == issued[|issued| - 1]
  {
  }

  lemma RotationKeepsLineInv(keys: Keys, issued: seq<KeyRecord>, now: nat, made: u64, pair: KeyPair)
    requires LineInv(keys, issued, now) && now <= made && NextId(keys).Success?
    ensures LineInv(Rotated(keys, made, pair).value, issued + [KeyRecord(NextId(keys).value, made, pair)], made)
  {
  }

  lemma CleanupKeepsLineInv(keys: Keys, issued: seq<KeyRecord>, earlier: nat, now: u64, left: Keys)
    requires LineInv(keys, issued, earlier) && earlier <= now && Cleaned(keys, now) == Success(left)
    ensures LineInv(left, issued, now)
  {
  }

  lemma {:induction false} LineRunKeepsInv(keys: Keys, issued: seq<KeyRecord>, events: seq<LineEvent>, now: nat)
    returns (end: nat)
    requires LineInv(keys, issued, now) && LineOk(Sqlite, keys, events, now)
    requires LineRun(keys, issued, events).Success?
    ensures var (finalKeys, finalIssued) := LineRun(keys, issued, events).value;
      LineInv(finalKeys, finalIssued, end) && issued <= finalIssued
    decreases |events|
  {
    if events == [] {
      end := now;
    } else {
      match events[0]
      case RotateAt(made, pair) =>
        RotationKeepsLineInv(keys, issued, now, made, pair);
        var issued' := issued + [KeyRecord(NextId(keys).value, made, pair)];
        end := LineRunKeepsInv(Rotated(keys, made, pair).value, issued', events[1..], made);
      case CleanupAt(t, left) =>
        SqliteCleanupIsDeterministic(keys, t, left);
        CleanupKeepsLineInv(keys, issued, now, t, left);
        end := LineRunKeepsInv(left, issued, events[1..], t);
    }
  }

  /** Over SQLite, in every interleaving of rotations and cleanups with a clock that does not go
      back: ids are issued consecutively and so never twice, although each is computed from the
      surviving keys alone; the newest key outlives every cleanup unchanged; and timestamps keep
      following the ids. */
  lemma IdsNeverReissuedAndNewestSurvives(events: seq<LineEvent>)
    requires LineOk(Sqlite, map[], events, 0) && LineRun(map[], [], events).Success?
    ensures var (keys, issued) := LineRun(map[], [], events).value;
      && (forall i | 0 <= i < |issued| :: issued[i].id == i + 1)
      && (forall id | id in keys :: 1 <= id <= |issued| && keys[id] == issued[id - 1])
      && (issued != [] ==> keys != map[] && Newest(keys) == issued[|issued| - 1])
      && (forall i, j | i in keys && j in keys && i <= j :: keys[i].timestamp <= keys[j].timestamp)
  {
    var end := LineRunKeepsInv(map[], [], events, 0);
    var (keys, issued) := LineRun(map[], [], events).value;
    LineInvNewest(keys, issued, end);
  }

  // ------------------------------------------------------------------ over either backend

  function IdsOf(issued: seq<KeyRecord>): set<u32> {
    set i | 0 <= i < |issued| :: issued[i].id
  }

  /** Ids were issued from 1 without gaps, and every stored id was issued. */
  ghost predicate GapInv(keys: Keys, issued: seq<KeyRecord>, now: nat) {
    && now <= U64_MAX
    && Orderly(keys, now)
    && keys.Keys <= IdsOf(issued)
    && (issued != [] ==> IdsOf(issued) != {} && IdsOf(issued) == Interval(1, Max(IdsOf(issued))))
  }

  ghost predicate NewestLive(keys: Keys, issued: seq<KeyRecord>) {
    issued != [] ==> IdsOf(issued) != {} && Max(IdsOf(issued)) in keys
  }

  lemma IssueOne(issued: seq<KeyRecord>, record: KeyRecord)
    ensures IdsOf(issued + [record]) == IdsOf(issued) + {record.id}
  {
    var all := issued + [record];
    assert all[|issued|] == record;
    forall id | id in IdsOf(issued) ensures id in IdsOf(all) {
      var i :| 0 <= i < |issued| && issued[i].id == id;
      assert all[i].id == id;
    }
  }

  /** A rotation issues an id again exactly when the newest id ever issued is no longer stored. */
  lemma RotationReissuesIff(keys: Keys, issued: seq<KeyRecord>, now: nat)
    requires GapInv(keys, issued, now) && NextId(keys).Success?
    ensures NextId(keys).value in IdsOf(issued) <==> !NewestLive(keys, issued)
    ensures issued != [] ==> NextId(keys).value <= Max(IdsOf(issued)) + 1
  {
    if issued == [] {
      assert keys.Keys == {};
      assert IdsOf(issued) == {};
    } else {
      var ids := IdsOf(issued);
      var top := Max(ids);
      assert top in ids;
      if top in keys {
        assert Max(keys.Keys) == top;
      }
      assert InInterval(1, top, NextId(keys).value) <==> NextId(keys).value in Interval(1, top);
    }
  }

  lemma RotationKeepsGapInv(keys: Keys, issued: seq<KeyRecord>, now: nat, made: u64, pair: KeyPair)
    requires GapInv(keys, issued, now) && now <= made && NextId(keys).Success?
    ensures GapInv(Rotated(keys, made, pair).value, issued + [KeyRecord(NextId(keys).value, made, pair)], made)
  {
    var id := NextId(keys).value;
    var after, issued' := Rotated(keys, made, pair).value, issued + [KeyRecord(id, made, pair)];
    RotationReissuesIff(keys, issued, now);
    OrderlyRotation(keys, now, made, pair, after);
    IssueOne(issued, KeyRecord(id, made, pair));
    if issued == [] {
      assert keys.Keys == {} && IdsOf(issued) == {};
      assert IdsOf(issued') == {1};
      GaplessSingleton();
    } else {
      GaplessExtends(IdsOf(issued), id);
    }
  }

  lemma GaplessSingleton()
    ensures {1} == Interval(1, Max({1}))
  {
    assert IsMax({1}, 1);
    forall i: u32 ensures i in {1} <==> InInterval(1, 1, i) {}
  }

  lemma GaplessExtends(ids: set<u32>, id: u32)
    requires ids != {} && ids == Interval(1, Max(ids)) && 1 <= id <= Max(ids) + 1
    ensures ids + {id} == Interval(1, Max(ids + {id}))
  {
    var top := Max(ids);
    var newTop: u32 := if id > top then id else top;
    assert IsMax(ids + {id}, newTop);
    forall i: u32 ensures i in ids + {id} <==> InInterval(1, newTop, i) {
      assert i in ids <==> InInterval(1, top, i);
    }
  }

  ghost predicate Distinct(issued: seq<KeyRecord>) {
    forall i, j | 0 <= i < j < |issued| :: issued[i].id != issued[j].id
  }

  /** At every rotation of the run the newest id issued so far is stored. */
  ghost predicate NewestLiveAtRotations(keys: Keys, issued: seq<KeyRecord>, events: seq<LineEvent>)
    decreases |events|
  {
    events != [] ==>
      match events[0]
      case RotateAt(made, pair) =>
        NewestLive(keys, issued) &&
        (NextId(keys).Success? ==>
           NewestLiveAtRotations(Rotated(keys, made, pair).value,
                                 issued + [KeyRecord(NextId(keys).value, made, pair)], events[1..]))
      case CleanupAt(now, left) => now >= GRACE ==> NewestLiveAtRotations(left, issued, events[1..])
  }

  lemma {:induction false} IssuedGrows(keys: Keys, issued: seq<KeyRecord>, events: seq<LineEvent>)
    requires LineRun(keys, issued, events).Success?
    ensures issued <= LineRun(keys, issued, events).value.1
    decreases |events|
  {
    if events != [] {
      match events[0]
      case RotateAt(made, pair) =>
        IssuedGrows(Rotated(keys, made, pair).value, issued + [KeyRecord(NextId(keys).value, made, pair)], events[1..]);
      case CleanupAt(now, left) => IssuedGrows(left, issued, events[1..]);
    }
  }

  lemma DistinctExtends(issued: seq<KeyRecord>, record: KeyRecord)
    requires Distinct(issued)
    ensures Distinct(issued + [record]) <==> record.id !in IdsOf(issued)
  {
    var all := issued + [record];
    if i :| 0 <= i < |issued| && issued[i].id == record.id {
      assert all[i].id == all[|issued|].id;
    }
  }

  /** Over either backend, no id is issued twice in a run exactly when at every rotation the newest
      id issued so far is stored. */
  lemma {:induction false} IdsDistinctIff(backend: Backend, keys: Keys, issued: seq<KeyRecord>,
                                          events: seq<LineEvent>, now: nat)
    requires GapInv(keys, issued, now) && LineOk(backend, keys, events, now) && Distinct(issued)
    requires LineRun(keys, issued, events).Success?
    ensures Distinct(LineRun(keys, issued, events).value.1) <==> NewestLiveAtRotations(keys, issued, events)
    decreases |events|
  {
    if events != [] {
      match events[0]
      case RotateAt(made, pair) =>
        var id := NextId(keys).value;
        var after, issued' := Rotated(keys, made, pair).value, issued + [KeyRecord(id, made, pair)];
        RotationReissuesIff(keys, issued, now);
        DistinctExtends(issued, KeyRecord(id, made, pair));
        if Distinct(issued') {
          RotationKeepsGapInv(keys, issued, now, made, pair);
          IdsDistinctIff(backend, after, issued', events[1..], made);
        } else {
          IssuedGrows(after, issued', events[1..]);
        }
      case CleanupAt(t, left) =>
        OrderlyCleanupAnyOrder(backend, keys, now, t, left);
        IdsDistinctIff(backend, left, issued, events[1..], t);
    }
  }

  /** The same from an empty store. */
  lemma IdsDistinctIffFromEmpty(backend: Backend, events: seq<LineEvent>)
    requires LineOk(backend, map[], events, 0) && LineRun(map[], [], events).Success?
    ensures Distinct(LineRun(map[], [], events).value.1) <==> NewestLiveAtRotations(map[], [], events)
  {
    assert IdsOf([]) == {};
    IdsDistinctIff(backend, map[], [], events, 0);
  }

  /** Over the hash map this does fail: two rotations a second apart, a cleanup more than seven days
      later that lists the newer key first, and the next rotation issues id 2 again. */
  lemma MemoryCanReissue()
    ensures exists events: seq<LineEvent> ::
      && LineOk(Memory, map[], events, 0) && LineRun(map[], [], events).Success?
      && !Distinct(LineRun(map[], [], events).value.1)
  {
    var t: u64 := 1_700_000_000_000;
    var p := KeyPair(0);
    var first, second := KeyRecord(1, t, p), KeyRecord(2, t + 1000, p);
    var now: u64 := t + 700_000_000;
    var one: Keys := map[1 := first];
    var two: Keys := map[1 := first, 2 := second];
    var again: Keys := map[1 := first, 2 := KeyRecord(2, now, p)];
    assert one.Keys == {1} && two.Keys == {1, 2};
    assert IsMax(one.Keys, 1);
    assert NextId(map[]) == Success(1) && NextId(one) == Success(2);
    assert Rotated(map[], t, p).value == one && Rotated(one, t + 1000, p).value == two;
    assert Expired(Memory, two, Cutoff(now)) == two.Keys;
    assert one == Only(two, 1);
    assert CleanedUp(Memory, two, Cutoff(now), one);
    assert Rotated(one, now, p).value == again;
    var e4 := [RotateAt(now, p)];
    var e3 := [CleanupAt(now, one)] + e4;
    var e2 := [RotateAt(t + 1000, p)] + e3;
    var e1 := [RotateAt(t, p)] + e2;
    assert e4[1..] == [] && e3[1..] == e4 && e2[1..] == e3 && e1[1..] == e2;
    var third := KeyRecord(2, now, p);
    assert [] + [first] == [first] && [first] + [second] == [first, second];
    assert LineRun(one, [first, second], e4) == LineRun(again, [first, second] + [third], []);
    assert LineRun(two, [first, second], e3) == LineRun(one, [first, second], e4);
    assert LineRun(one, [first], e2) == LineRun(two, [first, second], e3);
    assert LineRun(map[], [], e1) == LineRun(one, [first], e2);
    assert LineOk(Memory, one, e4, now) && LineOk(Memory, two, e3, t + 1000);
    assert LineOk(Memory, one, e2, t) && LineOk(Memory, map[], e1, 0);
    var issued := [first, second] + [third];
    assert issued[1].id == issued[2].id;
  }
}
