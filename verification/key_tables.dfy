/** Stores of timestamped pre-keys: one table shape serves signed and Kyber pre-keys alike. */
module KeyTables {
  import opened Basics
  import opened Ids

  /** A signed or Kyber pre-key record; `timestamp` is in milliseconds since the epoch. */
  datatype KeyRecord = KeyRecord(id: u32, timestamp: u64, pair: KeyPair)

  type Keys = map<u32, KeyRecord>

  /** Which implementation of the storage traits a table stands for. */
  datatype Backend = Sqlite | Memory

  /** A stored row.  `createdAt` is the whole-second column only the SQLite query consults. */
  datatype Row = Row(record: KeyRecord, createdAt: nat)

  /** The test each backend applies for "older than the cutoff". */
  predicate IsExpired(backend: Backend, timestamp: u64, cutoff: u64) {
    match backend
    case Sqlite => timestamp / 1000 < cutoff / 1000
    case Memory => timestamp < cutoff
  }

  function Expired(backend: Backend, keys: Keys, cutoff: u64): set<u32> {
    set id | id in keys && IsExpired(backend, keys[id].timestamp, cutoff)
  }

  class KeyTable {
    const backend: Backend
    var rows: map<u32, Row>

    ghost predicate Valid()
      reads this
    {
      forall id | id in rows ::
        rows[id].record.id == id && rows[id].createdAt == rows[id].record.timestamp / 1000
    }

    ghost function Records(): Keys
      reads this
    {
      map id | id in rows :: rows[id].record
    }

    constructor (backend: Backend)
      ensures Valid() && this.backend == backend && Records() == map[]
    {
      this.backend := backend;
      rows := map[];
    }

    /** Insert, replacing any row with the same id. */
    method Save(id: u32, record: KeyRecord)
      requires Valid() && record.id == id
      modifies this
      ensures Valid() && Records() == old(Records())[id := record]
    {
      rows := rows[id := Row(record, record.timestamp / 1000)];
    }

    method Get(id: u32) returns (r: Result<KeyRecord>)
      ensures r == if id in Records() then Success(Records()[id]) else Failure(InvalidKeyId)
    {
      if id in rows {
        r := Success(rows[id].record);
      } else {
        r := Failure(InvalidKeyId);
      }
    }

    method Count() returns (n: nat)
      ensures n == |Records()|
    {
      assert Records().Keys == rows.Keys;
      n := |rows|;
    }

    method MaxId() returns (r: Option<u32>)
      ensures r == if Records() == map[] then None else Some(Max(Records().Keys))
    {
      assert Records().Keys == rows.Keys;
      if rows == map[] {
        r := None;
      } else {
        r := Some(Max(rows.Keys));
      }
    }

    method Delete(id: u32)
      requires Valid()
      modifies this
      ensures Valid() && Records() == old(Records()) - {id}
    {
      rows := rows - {id};
    }

    /** The ids past the cutoff: SQLite scans rows in id order, the hash map in any order. */
    method OlderThan(cutoff: u64) returns (expired: seq<u32>)
      requires Valid()
      ensures Enumerates(expired, Expired(backend, Records(), cutoff))
      ensures backend.Sqlite? ==> Ascending(expired)
    {
      expired := [];
      var unseen := rows.Keys;
      while unseen != {}
        invariant unseen <= rows.Keys
        invariant Enumerates(expired, Expired(backend, Records(), cutoff) - unseen)
        invariant backend.Sqlite? ==> Ascending(expired)
        invariant backend.Sqlite? ==> forall x, y | x in expired && y in unseen :: x < y
        decreases |unseen|
      {
        var id := NextRow(unseen);
        var past := if backend.Sqlite? then rows[id].createdAt < cutoff / 1000
                    else rows[id].record.timestamp < cutoff;
        if past {
          assert forall k | 0 <= k < |expired| :: expired[k] in expired;
          expired := expired + [id];
        }
        unseen := unseen - {id};
      }
    }

    /** The next row a scan visits. */
    method NextRow(unseen: set<u32>) returns (id: u32)
      requires unseen != {}
      ensures id in unseen
      ensures backend.Sqlite? ==> forall y | y in unseen :: id <= y
    {
      id :| id in unseen;
      if backend.Sqlite? {
        var rest := unseen - {id};
        while rest != {}
          invariant id in unseen && rest <= unseen
          invariant forall y | y in unseen && y !in rest :: id <= y
          decreases |rest|
        {
          var y :| y in rest;
          rest := rest - {y};
          if y < id { id := y; }
        }
      }
    }
  }
}
