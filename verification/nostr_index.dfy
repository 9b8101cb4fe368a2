/** The two-way index between fingerprints and Nostr public keys. */
module NostrIndex {
  import opened Basics

  datatype Row = Row(pubkey: string, context: string)

  /** The nostr_identities table, keyed by fingerprint, and the contacts its foreign key names. */
  datatype Index = Index(foreignKeys: bool, contacts: set<string>, rows: map<string, Row>)

  datatype Op = AddContact(fingerprint: string) | Store(fingerprint: string, pubkey: string, context: string)

  /** The UNIQUE constraint on the public key. */
  ghost predicate UniquePubkeys(rows: map<string, Row>) {
    forall a, b | a in rows && b in rows && rows[a].pubkey == rows[b].pubkey :: a == b
  }

  function PubkeyOf(rows: map<string, Row>, fingerprint: string): Option<string> {
    if fingerprint in rows then Some(rows[fingerprint].pubkey) else None
  }

  predicate Held(rows: map<string, Row>, pubkey: string) {
    exists fp | fp in rows :: rows[fp].pubkey == pubkey
  }

  function FingerprintOf(rows: map<string, Row>, pubkey: string): Option<string>
    requires UniquePubkeys(rows)
  {
    if Held(rows, pubkey) then
      var fp :| fp in rows && rows[fp].pubkey == pubkey;
      Some(fp)
    else None
  }

  /** INSERT OR REPLACE: every row that conflicts on either unique column goes, then the row is added. */
  function InsertOrReplace(rows: map<string, Row>, fingerprint: string, row: Row): map<string, Row> {
    var conflicting := set fp | fp in rows && (fp == fingerprint || rows[fp].pubkey == row.pubkey);
    (rows - conflicting)[fingerprint := row]
  }

  function Stored(n: Index, fingerprint: string, pubkey: string, context: string): Result<Index>
    requires UniquePubkeys(n.rows)
  {
    var holder := FingerprintOf(n.rows, pubkey);
    if holder.Some? && holder.value != fingerprint then Failure(PubkeyTaken)
    else if n.foreignKeys && fingerprint !in n.contacts then Failure(ForeignKey)
    else Success(n.(rows := InsertOrReplace(n.rows, fingerprint, Row(pubkey, context))))
  }

  function Apply(n: Index, op: Op): Index
    requires UniquePubkeys(n.rows)
  {
    match op
    case AddContact(fp) => n.(contacts := n.contacts + {fp})
    case Store(fp, pubkey, context) =>
      match Stored(n, fp, pubkey, context) case Success(n') => n' case Failure(_) => n
  }

  class NostrTable {
    const foreignKeys: bool
    var contacts: set<string>
    var rows: map<string, Row>

    ghost predicate Valid()
      reads this
    {
      UniquePubkeys(rows)
    }

    ghost function State(): Index
      reads this
    {
      Index(foreignKeys, contacts, rows)
    }

    constructor (foreignKeys: bool)
      ensures Valid() && State() == Index(foreignKeys, {}, map[])
    {
      this.foreignKeys := foreignKeys;
      contacts, rows := {}, map[];
    }

    method GetNostrPubkey(fingerprint: string) returns (r: Option<string>)
      requires Valid()
      ensures r.Some? <==> fingerprint in rows
      ensures r.Some? ==> FingerprintOf(rows, r.value) == Some(fingerprint)
    {
      r := if fingerprint in rows then Some(rows[fingerprint].pubkey) else None;
    }

    method GetFingerprintByNostrPubkey(pubkey: string) returns (r: Option<string>)
      requires Valid()
      ensures r == FingerprintOf(rows, pubkey)
    {
      if fp :| fp in rows && rows[fp].pubkey == pubkey {
        r := Some(fp);
      } else {
        r := None;
      }
    }

    method StoreNostrIdentity(fingerprint: string, pubkey: string, context: string) returns (r: Result<()>)
      requires Valid()
      modifies this
      ensures Valid()
      ensures match Stored(old(State()), fingerprint, pubkey, context)
              case Success(n) => r == Success(()) && State() == n
              case Failure(e) => r == Failure(e) && State() == old(State())
    {
      var existing := GetFingerprintByNostrPubkey(pubkey);
      if existing.Some? && existing.value != fingerprint {
        return Failure(PubkeyTaken);
      }
      if foreignKeys && fingerprint !in contacts {
        return Failure(ForeignKey);
      }
      ReplaceKeepsUnique(rows, fingerprint, Row(pubkey, context));
      rows := InsertOrReplace(rows, fingerprint, Row(pubkey, context));
      r := Success(());
    }
  }

  // ------------------------------------------------------------------ what the guard buys

  lemma ReplaceKeepsUnique(rows: map<string, Row>, fingerprint: string, row: Row)
    requires UniquePubkeys(rows)
    ensures UniquePubkeys(InsertOrReplace(rows, fingerprint, row))
  {
  }

  /** On its own, INSERT OR REPLACE evicts another fingerprint's row exactly when that row holds
      the public key being stored. */
  lemma ReplaceEvictsIff(rows: map<string, Row>, fingerprint: string, row: Row)
    requires UniquePubkeys(rows)
    ensures InsertOrReplace(rows, fingerprint, row) == rows[fingerprint := row] <==>
      !(exists fp | fp in rows :: fp != fingerprint && rows[fp].pubkey == row.pubkey)
  {
    var after := InsertOrReplace(rows, fingerprint, row);
    if fp :| fp in rows && fp != fingerprint && rows[fp].pubkey == row.pubkey {
      assert fp !in after && fp in rows[fingerprint := row];
    } else {
      assert after.Keys == rows[fingerprint := row].Keys;
      assert after == rows[fingerprint := row];
    }
  }

  /** With the guard, a store is refused exactly when another fingerprint holds the key or the
      contact is unknown; an accepted one touches only its own row. */
  lemma GuardedStoreTouchesOneRow(n: Index, fingerprint: string, pubkey: string, context: string)
    requires UniquePubkeys(n.rows)
    ensures Stored(n, fingerprint, pubkey, context).Failure? <==>
      || (exists fp | fp in n.rows :: fp != fingerprint && n.rows[fp].pubkey == pubkey)
      || (n.foreignKeys && fingerprint !in n.contacts)
    ensures Stored(n, fingerprint, pubkey, context).Failure? ==>
      Stored(n, fingerprint, pubkey, context).error ==
      if exists fp | fp in n.rows :: fp != fingerprint && n.rows[fp].pubkey == pubkey then PubkeyTaken else ForeignKey
    ensures Stored(n, fingerprint, pubkey, context).Success? ==>
      Stored(n, fingerprint, pubkey, context).value == n.(rows := n.rows[fingerprint := Row(pubkey, context)])
  {
  }

  /** The two lookups are inverse to each other. */
  lemma LookupsAreInverse(rows: map<string, Row>, fingerprint: string, pubkey: string)
    requires UniquePubkeys(rows)
    ensures PubkeyOf(rows, fingerprint) == Some(pubkey) <==> FingerprintOf(rows, pubkey) == Some(fingerprint)
  {
  }

  // ------------------------------------------------------------------ whole runs

  lemma ApplyKeepsUnique(n: Index, op: Op)
    requires UniquePubkeys(n.rows)
    ensures UniquePubkeys(Apply(n, op).rows)
  {
  }

  function Run(n: Index, ops: seq<Op>): (end: Index)
    requires UniquePubkeys(n.rows)
    ensures UniquePubkeys(end.rows)
    decreases |ops|
  {
    if ops == [] then n
    else
      ApplyKeepsUnique(n, ops[0]);
      Run(Apply(n, ops[0]), ops[1..])
  }

  /** The public key a fingerprint last stored and was not refused. */
  function LastAccepted(n: Index, fingerprint: string, ops: seq<Op>): Option<string>
    requires UniquePubkeys(n.rows)
    decreases |ops|
  {
    if ops == [] then PubkeyOf(n.rows, fingerprint)
    else
      ApplyKeepsUnique(n, ops[0]);
      var last := ops[|ops| - 1];
      var before := Run(n, ops[..|ops| - 1]);
      if last.Store? && last.fingerprint == fingerprint && Stored(before, fingerprint, last.pubkey, last.context).Success?
      then Some(last.pubkey)
      else LastAccepted(n, fingerprint, ops[..|ops| - 1])
  }

  lemma {:induction false} RunSnoc(n: Index, ops: seq<Op>, op: Op)
    requires UniquePubkeys(n.rows)
    ensures Run(n, ops + [op]) == Apply(Run(n, ops), op)
    decreases |ops|
  {
    ApplyKeepsUnique(n, op);
    if ops == [] {
      assert [op][1..] == [];
      assert [] + [op] == [op];
    } else {
      ApplyKeepsUnique(n, ops[0]);
      assert (ops + [op])[0] == ops[0] && (ops + [op])[1..] == ops[1..] + [op];
      RunSnoc(Apply(n, ops[0]), ops[1..], op);
    }
  }

  /** After any run each lookup answers with the last accepted store, in both directions. */
  lemma {:induction false} LookupsFollowLastAccepted(n: Index, fingerprint: string, ops: seq<Op>)
    requires UniquePubkeys(n.rows)
    ensures PubkeyOf(Run(n, ops).rows, fingerprint) == LastAccepted(n, fingerprint, ops)
    ensures forall pubkey :: FingerprintOf(Run(n, ops).rows, pubkey) == Some(fingerprint) <==>
      LastAccepted(n, fingerprint, ops) == Some(pubkey)
    decreases |ops|
  {
    if ops != [] {
      var front, last := ops[..|ops| - 1], ops[|ops| - 1];
      assert ops == front + [last];
      RunSnoc(n, front, last);
      LookupsFollowLastAccepted(n, fingerprint, front);
      if last.Store? {
        GuardedStoreTouchesOneRow(Run(n, front), last.fingerprint, last.pubkey, last.context);
      }
    }
    forall pubkey {
      LookupsAreInverse(Run(n, ops).rows, fingerprint, pubkey);
    }
  }

  lemma {:induction false} ContactsAccumulate(n: Index, ops: seq<Op>)
    requires UniquePubkeys(n.rows)
    ensures var end := Run(n, ops);
      end.foreignKeys == n.foreignKeys && forall fp :: fp in end.contacts <==> fp in n.contacts || AddContact(fp) in ops
    decreases |ops|
  {
    if ops != [] {
      assert ops == [ops[0]] + ops[1..];
      ApplyKeepsUnique(n, ops[0]);
      ContactsAccumulate(Apply(n, ops[0]), ops[1..]);
    }
  }

  /** After any run a store is accepted exactly when no other fingerprint's last accepted store was
      of that key and, under enforced foreign keys, the contact was known or has been added. */
  lemma AcceptedIff(n: Index, ops: seq<Op>, fingerprint: string, pubkey: string, context: string)
    requires UniquePubkeys(n.rows)
    ensures Stored(Run(n, ops), fingerprint, pubkey, context).Success? <==>
      && (forall fp | LastAccepted(n, fp, ops) == Some(pubkey) :: fp == fingerprint)
      && (n.foreignKeys ==> fingerprint in n.contacts || AddContact(fingerprint) in ops)
  {
    var end := Run(n, ops);
    ContactsAccumulate(n, ops);
    GuardedStoreTouchesOneRow(end, fingerprint, pubkey, context);
    if fp :| fp in end.rows && fp != fingerprint && end.rows[fp].pubkey == pubkey {
      LookupsFollowLastAccepted(n, fp, ops);
      assert LastAccepted(n, fp, ops) == Some(pubkey);
    } else {
      forall fp | LastAccepted(n, fp, ops) == Some(pubkey) ensures fp == fingerprint {
        LookupsFollowLastAccepted(n, fp, ops);
      }
    }
  }

  /** A public key cannot be taken over: its fingerprint keeps it through any run in which that
      fingerprint itself stores no other key. */
  lemma {:induction false} PubkeyCannotBeTaken(n: Index, fingerprint: string, pubkey: string, ops: seq<Op>)
    requires UniquePubkeys(n.rows) && FingerprintOf(n.rows, pubkey) == Some(fingerprint)
    requires forall op | op in ops :: op.Store? && op.fingerprint == fingerprint ==> op.pubkey == pubkey
    ensures FingerprintOf(Run(n, ops).rows, pubkey) == Some(fingerprint)
    decreases |ops|
  {
    if ops != [] {
      assert ops[0] in ops && forall op | op in ops[1..] :: op in ops;
      ApplyKeepsUnique(n, ops[0]);
      if ops[0].Store? {
        GuardedStoreTouchesOneRow(n, ops[0].fingerprint, ops[0].pubkey, ops[0].context);
      }
      LookupsAreInverse(n.rows, fingerprint, pubkey);
      LookupsAreInverse(Apply(n, ops[0]).rows, fingerprint, pubkey);
      PubkeyCannotBeTaken(Apply(n, ops[0]), fingerprint, pubkey, ops[1..]);
    }
  }
}
