# A verified model of lotl's stateful cores

lotl wraps the Signal Protocol. This project models the three parts of it that keep state over
time and proves what holds over whole runs of them, with the cryptography opaque.

**The key lifecycle** (`key_tables.dfy`, `key_rotation.dfy`, `key_lines.dfy`, `pre_key_pool.dfy`,
`lotl.dfy`, `key_runs.dfy`). Signed and Kyber pre-keys are timestamped records, rotated when their truncated
age exceeds seven days and cleaned up by a loop that reads the live count again before each delete;
one-time pre-keys are a pool consumed one by one and replenished in batches of a hundred. The stores
and the `Lotl` object are classes; each method is proved to compute a function of the old state, and
the theorems are about arbitrary sequences of those functions. One table class serves signed and
Kyber keys, and carries a constant saying which backend it stands for; the `Lotl` object, as in the code,
stands on the SQLite ones. Clock readings are inputs.
Integer arithmetic that would leave 32 or 64 bits is a failure of the operation; the run theorems
show when that cannot occur.

**The two storage backends** (`addresses.dfy`, `peer_stores.dfy`, `peer_history.dfy`, parts of `key_rotation.dfy`). The
in-memory stores file peers under a formatted string and compare milliseconds; the SQLite stores use a
composite key and whole seconds. The project proves where the two agree on every call of every call
sequence, and exactly where they do not.

**Message history and the Nostr index** (`message_tables.dfy`, `unread_counter.dfy`, `message_runs.dfy`,
`paging.dfy`, `nostr_index.dfy`). Linked tables with a cached unread counter, a mark "read up to", offset paging,
and a two-way index guarded against overwriting.

## Assumptions about the environment

- SQLite lists the expired ids in ascending order: the query has no ORDER BY, but its column has no
  index, so the table is scanned by row id. `KeyRotation.CleanupAnyOrder` does not use this.
- SQLite lists messages of equal timestamp by descending row id, the order a backward scan of the
  conversation index gives; SQL itself leaves it open. The paging theorems use this fixed order.
- An empty key blob does not decode to a key pair, and stored records decode to what was stored.
- Whether foreign keys are enforced depends on how SQLite was built (the code sets no pragma), so
  the tables carry it as a constant and every theorem holds for both settings.
- Each SQL statement is atomic and does not fail for reasons of its own.

## What the proofs show about the code

- A due key is always expired, but not the other way round, because the age is truncated to whole
  seconds. Over the hash map a key is expired and not due while it is more than seven days and less
  than seven days and a second old; over SQLite, while the clock's second is one past the seventh
  day's and its milliseconds have not reached the key's.
- The newest key survives every SQLite cleanup all the same, because it is listed last and
  timestamps follow the ids. The in-memory store lists expired keys in hash order: there the newest
  key is safe exactly when it is not expired or is the only one.
- A signed or Kyber id is therefore never issued twice over SQLite. Over the in-memory store it is,
  exactly when a rotation finds the newest id ever issued gone, and a run in which that happens
  exists.
- Setup is not resumed: once a key pair is stored, opening the database again changes nothing. Key
  tables that an interrupted setup left empty are filled by the next maintenance, from any stores.
- The documentation of maintenance says keys rotate every seven days; the code rotates at seven days
  and one second.
- One-time pre-key ids are reused, contrary to what their name suggests: the next id is computed from
  the live ids, and bundles publish the largest live id, so consuming the published key lowers the id
  the next batch starts from. A batch reissues an id exactly when the newest id ever issued is no
  longer live. From any first-run setup, once peers have used up the published key fifty times, the
  next use reissues fifty-one ids.
- After a key pair was set and before a registration id was, SQLite answers the registration id zero
  and the in-memory store an error. This is the only disagreement between the two on sessions and
  identities.
- A message is unread if it was received and arrived after the conversation's last mark or is past
  that mark's bound. The cached counter is the number of those plus the number deleted while unread
  since the mark, so deleting an unread message leaves it one too high until the next mark.
- Marks overwrite: a later mark with an earlier bound makes messages count as unread again.
- The comment on `store_nostr_identity` credits the UNIQUE constraint with refusing a key held by
  another fingerprint; INSERT OR REPLACE would evict that row, and it is the preceding lookup that
  refuses.

## Model

| member | source | states |
|---|---|---|
| KeyTables.KeyTable.Save | src/signal_storage.rs:822-855 | the row with this id is replaced or added, the whole-second column agreeing with the record's timestamp; no other row changes |
| KeyTables.KeyTable.Get | src/signal_storage.rs:784-820 | the record stored under the id, or an invalid-id error exactly when there is none |
| KeyTables.KeyTable.Count | src/signal_storage.rs:860-868 | the number of stored keys |
| KeyTables.KeyTable.MaxId | src/signal_storage.rs:878-885 | the largest stored id, none exactly on an empty store |
| KeyTables.KeyTable.Delete | src/signal_storage.rs:887-894 | exactly the row with this id goes |
| KeyTables.KeyTable.OlderThan | src/signal_storage.rs:896-910 | every id past the cutoff once and no other; ascending over SQLite, in any order over the hash map |
| KeyRotation.Rotate | src/key_rotation.rs:27-42 | one new record under the largest id plus one, or an overflow that leaves the store alone |
| KeyRotation.NeedsRotation | src/key_rotation.rs:51-69 | true exactly for an empty store or a record under the largest id at least 604801000 ms old; an overflow exactly when that record is ahead of the clock |
| KeyRotation.Cleanup | src/key_rotation.rs:75-97 | the guarded delete loop leaves the keys not expired or, when all are, exactly one, over SQLite the newest |
| KeyRotation.SweepOutcome | src/key_rotation.rs:90-94 | for any enumeration of any doomed ids the guarded loop deletes them all if anything else is stored, and otherwise all but the last one listed |
| KeyRotation.CleanupAnyOrder | src/key_rotation.rs:202-224 | in any listing order: a store is never emptied, no key of seven days or less goes, all expired keys go if one is not expired, and else exactly one stays |
| KeyRotation.NewestSurvivesIff | src/key_rotation.rs:81-94 | on any store the newest key survives a SQLite cleanup exactly when it is not expired or all are |
| KeyRotation.OrderlyCleanup | src/key_rotation.rs:75-97 | if timestamps follow the ids, cleanup keeps the newest key unchanged and keeps that order |
| KeyRotation.OrderlyCleanupAnyOrder | src/key_rotation.rs:202-224 | on either backend and in any listing order a cleanup keeps timestamps following ids, and loses the newest key exactly when the hash map has every key expired and lists another one last |
| KeyRotation.OrderlyRotation | src/key_rotation.rs:142-169 | rotation keeps timestamps following the ids and makes the new key the newest, one id up |
| KeyRotation.DueIff | src/key_rotation.rs:178-197 | the same of the check's specification, for every store and clock |
| KeyRotation.DueImpliesExpired | src/key_rotation.rs:67-83 | a key due at one reading is past the cutoff at every later one under both roundings |
| KeyRotation.ExpiredBeforeDueIff | src/key_rotation.rs:51-97 | the newest key is expired but not due over the hash map exactly when its age is strictly between seven days and seven days and a second, over SQLite exactly when the clock's second is one past the seventh day's and its milliseconds are behind the key's |
| KeyRotation.ExpiredCanPrecedeDue | src/key_rotation.rs:67-83 | such a store and instant, the same for both backends |
| KeyRotation.ExpiryRefinement | src/memory_storage.rs:364-378 | SQLite's expired set is within the in-memory one; they differ exactly on older keys stamped within the cutoff's second |
| KeyRotation.CleanupRefinement | src/memory_storage.rs:458-472 | on every store: while the hash map still holds an unexpired key, it keeps a subset of what SQLite keeps, the surplus being exactly the keys of the cutoff's second; when it holds none it keeps one key, which SQLite keeps too exactly when SQLite does not count it as expired or, counting all, has it as the newest |
| KeyRotation.MemoryNewestSurvivesIff | src/memory_storage.rs:364-378 | on any store the newest key survives an in-memory cleanup in every listing order exactly when it is not expired or is the only key |
| KeyRotation.MemoryCleanupCanLoseNewest | src/memory_storage.rs:364-378 | when all keys are expired, for every older key there is a listing order that keeps it and deletes the newest |
| PreKeyPools.PreKeyStore.Save | src/signal_storage.rs:675-698 | the key with this id is added or replaced, no other changes |
| PreKeyPools.PreKeyStore.Delete | src/signal_storage.rs:743-750 | exactly the key with this id goes |
| PreKeyPools.PreKeyStore.MaxId | src/signal_storage.rs:734-741 | a live id no other exceeds, none exactly on an empty pool |
| PreKeyPools.GeneratePreKeys | src/keys.rs:26-40 | consecutive ids from the start, one drawn pair each; fails exactly when the last id leaves 32 bits |
| PreKeyPools.Replenish | src/key_rotation.rs:122-135 | the pool gains a hundred drawn pairs above its largest id, or is left alone on overflow |
| PreKeyPools.ConsumePreKey | src/key_rotation.rs:104-116 | the key goes and a batch is added exactly when fewer than fifty are left |
| PreKeyPools.BatchAddsAHundred | src/key_rotation.rs:122-135 | a batch is disjoint from the live ids, overwrites nothing, adds exactly a hundred, and fails exactly when its last id does not fit |
| PreKeyPools.ConsumeKeepsPoolStocked | src/key_rotation.rs:104-116 | at least fifty keys remain, the others unchanged, and the consumed id can only reappear naming a new pair of the batch |
| PreKeyPools.ConsumeTopsUpIff | src/key_rotation.rs:104-135 | a batch of drawn pairs is added exactly when fewer than fifty keys are left; consuming fails exactly when it would not fit, and then only the consumed key has gone |
| LotlKeys.Lotl.EnsureIdentityInitialized | src/lib.rs:151-198 | a database with a key pair is left exactly as it was; any other gets the pair, the drawn registration id cut to 14 bits, key 1 of both kinds and a first batch, its other keys unchanged |
| LotlKeys.SetUpOutcome | src/lib.rs:157-198 | the same of setup's specification, the pool unchanged when ids run out |
| LotlKeys.Lotl.PerformKeyMaintenance | src/lib.rs:557-606 | the whole new state and report of a maintenance, including the partial state after a failing step |
| LotlKeys.Lotl.GeneratePrekeyBundle | src/lib.rs:266-306 | succeeds exactly with a key pair and a key of each kind, and then carries the registration id of the local row and the largest id of each kind; which error otherwise |
| LotlKeys.PublishedIff | src/lib.rs:266-306 | the same of the specification, for any stores |
| LotlKeys.MaintenanceSucceedsIff | src/lib.rs:557-606 | from any stores a maintenance succeeds exactly with a key pair, ids left where they are needed and readings not behind the keys or the first seven days; without a key pair nothing changes, and no outcome touches the local row or a live one-time key |
| LotlKeys.MaintenanceRestocks | src/lib.rs:567-606 | from any stores, those of an interrupted setup included, a successful maintenance rotates exactly an empty table or a due key, gives an empty table key 1, leaves both tables non-empty and fifty one-time keys, reports each truthfully, and makes a bundle publishable |
| KeyLines.IdsNeverReissuedAndNewestSurvives | src/key_rotation.rs:27-97 | over SQLite and every interleaving of rotations and cleanups ids are issued as 1, 2, 3, ..., every stored key is the one issued under its id, and the newest always survives |
| KeyLines.RotationReissuesIff | src/key_rotation.rs:31-34 | over either backend a rotation issues an id again exactly when the newest id ever issued is not stored, and never skips one |
| KeyLines.IdsDistinctIff | src/key_rotation.rs:27-97 | over either backend, every interleaving and every listing order, no id is issued twice exactly when every rotation finds the newest issued id stored |
| KeyLines.IdsDistinctIffFromEmpty | src/key_rotation.rs:27-97 | the same from an empty store |
| KeyLines.MemoryCanReissue | src/memory_storage.rs:364-378 | a run over the hash map that does issue an id twice |
| KeyRuns.LineStep | src/lib.rs:567-603 | in one maintenance a kind of key rotates exactly when its key is due, fails only for want of ids, and ends with exactly one key |
| KeyRuns.LineStepOnBackend | src/key_rotation.rs:51-97 | the same step on either backend for every listing order: one key is left, and it is sure to be the last one issued exactly over SQLite, without a rotation, or while the new key is not itself expired at the sweep |
| KeyRuns.BornInv | src/lib.rs:151-198 | first-run setup from an empty database succeeds and establishes the invariant of all runs |
| KeyRuns.AdvanceInv | src/lib.rs:557-606 | every maintenance, consumption, removal and reopening that succeeds keeps that invariant |
| KeyRuns.ReopeningIsInvisible | src/lib.rs:134-159 | opening the database again anywhere in a run from first-run setup changes nothing in the final history |
| KeyRuns.BundlesCarryTheFirstIdentity | src/lib.rs:266-310 | after any run from first-run setup the local row is the one first drawn, and a published bundle carries its registration id and the largest id of each kind |
| KeyRuns.RotationsAreSpaced | src/key_rotation.rs:51-69 | in every run any two rotations of a kind were triggered at least 604801000 ms apart per rotation between them |
| KeyRuns.OneKeyOfEachKind | src/lib.rs:598-603 | in every run exactly one signed and one Kyber key is stored between operations, the last one issued |
| KeyRuns.PublishableIff | src/lib.rs:266-306 | between operations a bundle can be published exactly when a one-time key is left |
| KeyRuns.MaintenanceMakesFreshBundle | src/lib.rs:685-727 | after a maintenance a bundle can be published from stored keys that were under 604801 s old when checked |
| KeyRuns.MaintenanceIsNoOpIff | src/lib.rs:557-606 | a maintenance changes and reports nothing exactly when no key is due and the pool is not low |
| KeyRuns.MaintenanceIsIdempotent | src/lib.rs:557-606 | run twice at one instant, the second maintenance reports {0, false, false} and changes nothing |
| KeyRuns.PoolIsConserved | src/key_rotation.rs:104-135 | in every run live keys are issued less removed, replenishments are bounded by removals, at most 149 are live, and the ids issued are 1 up to at most removals plus 149 |
| KeyRuns.PoolStaysStocked | src/lib.rs:591-596 | maintenance and consumption leave at least fifty keys, and a maintenance generates exactly 0 or 100 |
| KeyRuns.BatchReissuesIff | src/key_rotation.rs:125-127 | a batch reissues an id exactly when the newest id ever issued is not live |
| KeyRuns.ConsumingPublishedKeyReissues | src/lib.rs:277-284 | consuming the published key at the threshold always triggers a batch that reissues an id |
| KeyRuns.PublishedKeysAreReissued | src/lib.rs:277-284 | from any first-run setup, fifty uses of the published key lead to a reachable history in which consuming the next published key, 50, issues the ids 50 to 100 a second time |
| KeyRuns.RunsNeverOverflow | src/keys.rs:33-37 | with an honest clock and within explicit bounds on time and removals every operation of every run succeeds |
| KeyRuns.NoRunFromSetupOverflows | src/key_rotation.rs:31-34 | the same bounds for runs from first-run setup |
| Addresses.KeyRoundTrip | src/memory_storage.rs:13-15 | the formatted key of any address can be parsed back, colons in the name included |
| Addresses.KeyInjective | src/memory_storage.rs:13-15 | two addresses have the same key exactly when they are equal |
| PeerStores.MemoryPeers.Perform | src/memory_storage.rs:34-224 | each in-memory session and identity call: answer and whole new state |
| PeerStores.SqlitePeers.Perform | src/signal_storage.rs:200-610 | each SQLite session and identity call: answer and whole new state, including the COALESCE updates of the local row |
| PeerStores.StepKeepsSimilar | src/signal_storage.rs:239-293 | every call keeps the hash maps and the tables in correspondence |
| PeerStores.StepSimulates | src/signal_storage.rs:345-411 | one call on corresponding stores gets the same answer exactly unless it asks for the registration id after only a key pair was set, and what each answers then |
| PeerStores.PerformOnBoth | src/signal_storage.rs:200-610 | the same call on both objects, which stay in correspondence |
| PeerStores.BackendsAgree | src/signal_storage.rs:413-519 | over every call sequence both backends give the same answers, except exactly the registration id asked for after only a key pair was set |
| PeerStores.BackendsAgreeFromEmpty | src/signal_storage.rs:533-564 | the same for call sequences on new stores |
| PeerHistory.AnswersFollowTheCalls | src/memory_storage.rs:34-224 | on new stores of either backend every answer is told by the calls before it: the session and key last saved and not deleted, a replacement exactly for a different key, trust exactly in the last key or a peer without one, the number of peers that have one, and the local identity last set; only SQLite's zero registration id differs |
| PeerHistory.OnlyTheSavedKeyIsTrusted | src/signal_storage.rs:469-480 | once a key is saved, and until another is or it is deleted, exactly that key is trusted, on both backends |
| MessageTables.MessageHistory.GetOrCreateConversation | src/message_history.rs:171-191 | the existing conversation, or a new one under an id never used, or a foreign-key error that changes nothing |
| MessageTables.MessageHistory.StoreIncomingMessage | src/message_history.rs:237-268 | the new state; the answer is an id above any used before, by which exactly the given fingerprint, timestamp, content and flags read back; a failure, exactly of an unknown contact under foreign keys, changes nothing |
| MessageTables.MessageHistory.StoreOutgoingMessage | src/message_history.rs:280-307 | the same for an outgoing message, which is not counted |
| MessageTables.AnswerReadsBack | src/message_history.rs:263-307 | the same of the operations' specification |
| MessageTables.MessageHistory.MarkConversationRead | src/message_history.rs:524-530 | the counter of that conversation becomes zero; without one nothing changes |
| MessageTables.MessageHistory.MarkConversationReadUpTo | src/message_history.rs:542-568 | the counter becomes the number of received messages past the bound; an error exactly without a conversation |
| MessageTables.MessageHistory.UpdateDeliveryStatus | src/message_history.rs:315-325 | the status of that message alone changes; without one nothing does |
| MessageTables.MessageHistory.RemoveMessage | src/message_history.rs:575-578 | that message row alone goes; the counter is not touched |
| MessageTables.MessageHistory.ArchiveConversation | src/message_history.rs:606-612 | the flag of that conversation alone changes |
| MessageTables.MessageHistory.RemoveConversation | src/message_history.rs:585-598 | the conversation's messages and its row go |
| MessageTables.MessageHistory.GetMessage | src/message_history.rs:335-371 | the joined row, found exactly when the message is stored |
| MessageTables.MessageHistory.GetUnreadCount | src/message_history.rs:505-517 | the counter cast to 32 bits, zero without a conversation |
| MessageTables.ApplyWellFormed | src/message_history.rs:107-146 | every operation keeps fingerprints unique, every message in an existing conversation, and ids within the ones handed out |
| UnreadCounter.StepExplained | src/message_history.rs:505-568 | every operation keeps each counter equal to the unread messages plus those deleted while unread since the last mark |
| UnreadCounter.UnreadCounterIsExplained | src/message_history.rs:200-223 | after every run each counter is the number of stored, received messages that arrived after the last mark or are past its bound, plus those deleted while unread since that mark |
| UnreadCounter.UnreadCounterIsExact | src/message_history.rs:505-568 | in every run without single deletes each counter is exactly the number of those messages |
| UnreadCounter.DeleteKeepsCounterExactIff | src/message_history.rs:575-578 | after any run that leaves the counter exact, a delete keeps it exact if and only if the message was sent, or had arrived by the last mark and is not past its bound |
| UnreadCounter.DeleteCanLeaveCounterHigh | src/message_history.rs:575-578 | a run that ends with the counter one too high |
| MessageRuns.MarkIsRaceTolerant | src/message_history.rs:532-568 | a mark can be moved across any run of later arrivals and other independent operations without changing the final tables |
| MessageRuns.SingleArrivalCommutesIff | src/message_history.rs:532-568 | one arriving message commutes with the mark exactly when it is past the bound |
| MessageRuns.DeleteCommutesIff | src/message_history.rs:532-578 | deleting a message commutes with the mark exactly when the mark does not count it |
| MessageRuns.LaterMarkReplacesEarlier | src/message_history.rs:553-565 | only the last bound decides the counter |
| MessageRuns.MessageLife | src/message_history.rs:335-371 | a message reads back after any run exactly when neither it nor its conversation was deleted, unchanged but for its last delivery status |
| MessageRuns.StoreReadsBack | src/message_history.rs:237-307 | the answered id names a new row that reads back as given, and no other message changes |
| MessageRuns.AnswersGrow | src/message_history.rs:263-306 | of two successful stores in a run, whatever is deleted in between, the later answers the larger id |
| MessageRuns.AnswerNamesItsMessage | src/message_history.rs:335-371 | after any later run the answered id reads back the given fields with the last status set, exactly until the message or its conversation is deleted |
| MessageRuns.StoreTouchesOneConversation | src/message_history.rs:200-223 | storing stamps its conversation with that message's timestamp, counts it if received, and touches no other |
| MessageRuns.RowFollowsRun | src/message_history.rs:200-223 | after any run a conversation's row carries the timestamp of the last message stored in it and the flag of the last archive call for it |
| MessageRuns.ArchiveSetsTheFlag | src/message_history.rs:606-612 | archiving sets the flag of that contact's conversation to the given value and keeps every other field and row |
| MessageRuns.DeleteConversationIsExact | src/message_history.rs:585-598 | deleting a conversation removes exactly its row and its messages |
| Paging.GetConversationMessages | src/message_history.rs:383-432 | the page is the slice of the newest-first list given by limit and offset, each row joined; empty without a conversation |
| Paging.NoConversationNoPages | src/message_history.rs:395-399 | without a conversation every page is empty |
| Paging.PagesCoverConversation | src/message_history.rs:383-432 | pages at offsets 0, L, 2L, ... joined together are every message of the conversation once, newest first |
| Paging.RunShiftsPagesIff | src/message_history.rs:401-408 | after any run of operations that deletes none of the conversation, in which m messages arrive in it, the page at offset o + m is the page that was at o for every o and limit, if and only if none of the m is older than a message already there |
| Paging.ArrivalShiftsPagesIff | src/message_history.rs:401-408 | one message, received or sent, shifts every page by one exactly when nothing in the conversation is newer |
| NostrIndex.NostrTable.StoreNostrIdentity | src/integrations/nostr/storage.rs:59-80 | the replaced table, or a refusal that changes nothing |
| NostrIndex.NostrTable.GetNostrPubkey | src/integrations/nostr/storage.rs:91-102 | a key whose holder by reverse lookup is the fingerprint, none exactly when it has no row |
| NostrIndex.NostrTable.GetFingerprintByNostrPubkey | src/integrations/nostr/storage.rs:115-129 | the fingerprint that holds the key, none exactly when nobody does |
| NostrIndex.ReplaceEvictsIff | src/integrations/nostr/storage.rs:74-78 | INSERT OR REPLACE alone evicts another row exactly when that row holds the key |
| NostrIndex.GuardedStoreTouchesOneRow | src/integrations/nostr/storage.rs:65-78 | with the guard a store is refused exactly when another holds the key or the contact is unknown, and otherwise changes its own row only |
| NostrIndex.LookupsAreInverse | src/integrations/nostr/storage.rs:91-129 | forward and reverse lookup are inverse to each other |
| NostrIndex.LookupsFollowLastAccepted | src/integrations/nostr/storage.rs:59-129 | after any run both lookups answer with the fingerprint's last accepted store |
| NostrIndex.AcceptedIff | src/integrations/nostr/storage.rs:59-80 | after any run a store is accepted exactly when no other fingerprint's last accepted store was of that key and the contact is known where foreign keys are enforced |
| NostrIndex.PubkeyCannotBeTaken | src/integrations/nostr/storage.rs:65-72 | a key stays with its fingerprint through any run in which that fingerprint stores no other |

## Left out

- Cryptography and libsignal calls, bundle bytes, database encryption and connection setup: foreign code or encoding. Decryption appears only as the removal of a one-time key.
- Rotate: an id past 32 bits is an overflow failure, as in a build with overflow checks; a release build would wrap. Within the bounds of `KeyRuns.RunsNeverOverflow` the two do not differ.
- NeedsRotation: a clock behind the key's timestamp is likewise an overflow failure, where a release build would wrap to a huge age.
- Maintenance over the in-memory backend: `Lotl` holds SQLite stores only, so the whole-object runs are over SQLite; rotation, cleanup, runs of the two and the step of one maintenance (`KeyRuns.LineStepOnBackend`) cover both backends.
- RunShiftsPagesIff: between two page reads the paged conversation and its messages are not deleted, since offsets would then move back, and a single delete names a message stored before the first read.
- PeerStores.MemoryPeers.Perform: the trait methods are grouped in one dispatching method per backend; mutexes and per-store objects are not modelled.
- Row timestamps other than `created_at` of signed and Kyber keys, and `expires_at`, `is_current`, `used_at`, `trust_level`: written but read by no modelled decision.
- Marking a Kyber key used, clearing the key stores: they influence no modelled decision or only empty a table.
- MessageHistory.StoreIncomingMessage: row ids and counters are unbounded rather than 64 bits wide.
- Message types and the integer decoders of the enums: every modelled message is text.
- Listing conversations by recency: a sort on the stored timestamp, which `MessageRuns.RowFollowsRun` pins down.
- MarkIsRaceTolerant: a delete of a single message is not among the operations a mark is moved across; `MessageRuns.DeleteCommutesIff` says exactly when it could be.
- Contacts beyond the set of known fingerprints; the code never deletes one, so cascades do not occur.
- Closing storage, panics on uninitialised stores, schema versions, configuration.
