# keriox sled tables — a Dafny model

This project models the typed table layer of keriox's event database,
`src/database/sled/tables.rs`. That layer sits on one `sled::Tree`, an
ordered partition from byte keys to byte values. It offers two typed views
over the partition:

- `SledEventTree<T>` holds one CBOR-encoded record per `u64` key. Its
  operations are `get`, `contains_key`, `insert`, the value scans
  `contains_value` and `get_key_by_value`, `iter`, and the key-allocation
  helpers `get_next_key` and `designated_key`.
- `SledEventTreeVec<T>` holds one encoded `Vec<T>` per `u64` key. Its
  operations are `get`, `put`, `push` and `append`.

Keys are stored as their 8-byte big-endian form (`key_bytes`) and read back
with `u64::from_be_bytes`.

The modules are:

| module | file | contents |
|---|---|---|
| `Wrappers` | `wrappers.dfy` | `Option`, the error kinds (`EncodeError`, `DecodeError`, `StoreError`) and `Result` |
| `KeyCodec` | `key_codec.dfy` | bytes, `u64`, `key_bytes`, `from_be_bytes`, Rust's byte-slice order, and the proofs that the codec round-trips and preserves order |
| `Store` | `store.dfy` | the partition as a strictly ascending sequence of entries: the point lookup `Find`, the write `Upsert`, and the class `Tree`, which is the shared mutable partition |
| `Record` | `record.dfy` | the record codec as a value: `encode`, `decode` and `T::default()` |
| `EventTree` | `event_tree.dfy` | `SledEventTree<T>`. Its reads are functions of the partition's entries. Its `insert` is a method of the table class and changes the shared tree. |
| `EventTreeVec` | `event_tree_vec.dfy` | `SledEventTreeVec<T>`. Its `get` is a function. `put`, `push` and `append` are methods that change the shared tree. |
| `Scenarios` | `scenarios.dfy` | short client runs against fresh partitions, each proved from the operations' contracts alone |

Modelling choices:

- **The partition.** `Store.Tree` holds the partition's entries, kept in the
  order `sled` iterates them: ascending by Rust's lexicographic order on
  `[u8]`. The first and last entries are what iteration starts with and
  what `Tree::last` returns.
- **Table handles.** A table handle is a class holding a reference to the
  shared `Tree`. Writes through any handle change the one partition.
- **The record codec.** `serde_cbor` is a pair of partial functions. The
  tables require only the round trip `decode(encode(v)) == Some(v)`
  (`Record.Lawful`). Decoding arbitrary bytes may fail, so the skip,
  default and error paths are all reachable.
- **Store failures.** A failed store read or write is a boolean parameter
  of the operation it affects (`ioError`, `readError`, `writeError`).
- **Panics.** The `array_ref!` slices and the `unwrap` in `contains_value`
  become preconditions (`KeyByValueDefined`, `NextKeyDefined`,
  `ScanDecodes`). Each excludes exactly the inputs on which that call
  panics. `designated_key` calls `get_next_key` only when no entry matches,
  so it needs `NextKeyDefined` only in that case.
- **Well-keyed partitions.** The lemmas about numeric key order assume
  that every stored key has exactly 8 bytes (`WellKeyed`). Every table
  write keeps that true (`EventTree.UpsertWellKeyed`, and the
  `WellKeyed` clause of every table write).

Behaviour of the code as written that the model keeps:

- `get_next_key` returns the largest stored key itself, not one past it.
  It returns 0 for an empty partition, and it cannot tell an empty
  partition from one holding only key 0. As a result, `designated_key` for
  a new value in a non-empty partition names a key that is already in use.
  This is proved rather than corrected, because `designated_key` depends
  on it.
- `contains_value` calls `unwrap` on every entry it reaches, so an
  undecodable entry before the first match is a panic, not a skip. The
  model follows the code: this is the precondition `ScanDecodes`. `iter`,
  by contrast, drops undecodable entries.
- `get_key_by_value` compares an undecodable entry as `T::default()`.
  Looking up the default value therefore finds undecodable entries.
- The vector `get` turns a failed store read into `Ok(None)`, while the
  scalar `get` propagates it. A read fault inside `push` therefore replaces
  the stored sequence with `[x]`.

## Model

| member | source | states |
|---|---|---|
| KeyCodec.KeyBytes | src/database/sled/tables.rs:166-168 | `key_bytes` yields exactly 8 bytes |
| KeyCodec.KeyRoundTrip | src/database/sled/tables.rs:166-168 | `from_be_bytes(key_bytes(k)) == k` for every `u64` |
| KeyCodec.FromBeBytes | src/database/sled/tables.rs:134 | `from_be_bytes` of any 8 bytes is the key whose `key_bytes` are those bytes, so the codec is a bijection |
| KeyCodec.DecodeKey | src/database/sled/tables.rs:146 | `from_be_bytes(array_ref!(k, 0, 8))` is the key whose encoding is the first 8 bytes of `k` |
| KeyCodec.KeyBytesInjective | src/database/sled/tables.rs:166-168 | distinct keys have distinct encodings |
| KeyCodec.KeyOrder | src/database/sled/tables.rs:166-168 | `k1 < k2` exactly when `key_bytes(k1)` is lexicographically below `key_bytes(k2)` |
| KeyCodec.DecodedKeyOrder | src/database/sled/tables.rs:146 | for 8-byte store keys, byte order equals the order of the decoded `u64` keys |
| Store.Find | src/database/sled/tables.rs:98 | the store lookup is `None` exactly when no entry has the key; otherwise it returns a stored entry's value |
| Store.FindAt | src/database/sled/tables.rs:98 | in an ascending partition, looking up an entry's key returns that entry's value |
| Store.Upsert | src/database/sled/tables.rs:120 | the store write keeps entries strictly ascending; afterwards the key maps to the new value and every other key keeps its old lookup; no entry appears except the written one |
| Store.UpsertExisting | src/database/sled/tables.rs:117-120 | writing to a key already present replaces that entry in place and leaves the order of the others unchanged |
| Store.Tree.Insert | src/database/sled/tables.rs:120 | the shared partition becomes the `Upsert` of its old entries and stays ascending |
| EventTree.ContainsKey | src/database/sled/tables.rs:106-108 | `contains_key` fails exactly on a store error; otherwise it is `Ok(true)` when some entry holds `key_bytes(id)` and `Ok(false)` when none does |
| EventTree.Get | src/database/sled/tables.rs:97-102 | `get` is `StoreError` exactly on a store error; `Ok(None)` exactly when `contains_key` is false; `DecodeError` exactly when the key is present but undecodable; a returned record is what the stored bytes decode to, and a present, decodable entry is returned as `Ok(Some(decoded))` |
| EventTree.GetAfterUpsert | src/database/sled/tables.rs:116-122 | after writing the encoding of `v` at `key`, `get(key)` is `Ok(Some(v))` and `get` at every other key is unchanged |
| EventTree.UpsertWellKeyed | src/database/sled/tables.rs:119-120 | writing under `key_bytes(key)` keeps every stored key 8 bytes wide and the partition ascending |
| EventTree.Iter | src/database/sled/tables.rs:126-128 | `iter` yields at most one record per entry, and yields a value exactly when some entry decodes to it |
| EventTree.IterConcat | src/database/sled/tables.rs:126-128 | iteration follows partition order: iterating two adjacent runs of entries yields the first run's records, then the second's |
| EventTree.IterAllDecodable | src/database/sled/tables.rs:126-128 | when every entry decodes, `iter` yields exactly the decoded records, one per entry, in key order |
| EventTree.ContainsValue | src/database/sled/tables.rs:112-114 | `contains_value(v)` holds exactly when some entry decodes to `v`, and exactly when `v` is among the records `iter` yields; it requires the entries scanned before the first match to decode |
| EventTree.FirstMatch | src/database/sled/tables.rs:144-145 | the scan's `find` returns the position of a matching entry with no match before it, or none when no entry matches under `unwrap_or_default` |
| EventTree.GetKeyByValue | src/database/sled/tables.rs:141-150 | `get_key_by_value` never returns `Err`; it returns `None` exactly when no entry matches under `unwrap_or_default`; otherwise the key it returns encodes to the first 8 bytes of the first matching entry's key |
| EventTree.KeyByValueIsSmallest | src/database/sled/tables.rs:141-150 | in a well-keyed partition the key returned holds a matching record and is at most every key holding a match; `None` means no key holds one |
| EventTree.DefaultMatchesUndecodable | src/database/sled/tables.rs:145 | when some entry is undecodable, looking up `T::default()` returns a key no larger than that entry's key |
| EventTree.GetNextKey | src/database/sled/tables.rs:132-136 | `get_next_key` is 0 on an empty partition; otherwise it is the key whose encoding is the first 8 bytes of the last entry's key |
| EventTree.NextKeyIsLastOccupied | src/database/sled/tables.rs:130-136 | in a non-empty partition, `get_next_key` returns an occupied key, and every occupied key is at most it |
| EventTree.KeyBelowLast | src/database/sled/tables.rs:133-134 | every stored key decodes to at most the key of the last entry |
| EventTree.NextKeyIsMaxOccupied | src/database/sled/tables.rs:132-136 | `get_next_key` equals any occupied key that bounds all occupied keys |
| EventTree.OccupiedAfterUpsert | src/database/sled/tables.rs:119-120 | after `insert(key, _)` the occupied keys are exactly the previous ones plus `key` |
| EventTree.NextKeyZero | src/database/sled/tables.rs:132-136 | `get_next_key` is 0 exactly when the partition is empty or holds only key 0 |
| EventTree.DesignatedKey | src/database/sled/tables.rs:156-163 | `designated_key` is the key of the first entry matching `v` when one matches, and `get_next_key()` when none does; it needs the last key to be 8 bytes wide only in that second case |
| EventTree.DesignatedKeyFound | src/database/sled/tables.rs:156-163 | when some key holds `v`, `designated_key(v)` holds `v` and is the smallest such key |
| EventTree.DesignatedKeyForNewValue | src/database/sled/tables.rs:152-163 | for a value no key holds, `designated_key` of a non-empty partition is the largest occupied key |
| EventTree.FirstMatchAfterReplace | src/database/sled/tables.rs:144-145 | replacing an entry with a matching one, when no earlier entry matches, makes it the first match |
| EventTree.DesignatedKeyStable | src/database/sled/tables.rs:152-163 | storing `v` at `designated_key(v)` keeps the partition well keyed, and `designated_key(v)` then names the same key again |
| EventTree.SledEventTree.constructor | src/database/sled/tables.rs:82-87 | `new` binds the table to the given partition and record codec, and the table's invariant holds from then on |
| EventTree.SledEventTree.Insert | src/database/sled/tables.rs:116-122 | `insert` fails with `EncodeError` or `StoreError` and then leaves the tree unchanged; on success it overwrites unconditionally, `get(key)` returns the value, every other key's `get` is unchanged, and well-keyedness is preserved |
| EventTreeVec.Get | src/database/sled/tables.rs:31-38 | the vector `get` only fails with `DecodeError`, and exactly when the read succeeds and the stored bytes do not decode; it is `Ok(None)` exactly on a read fault or an absent key; a returned sequence is what the stored bytes decode to |
| EventTreeVec.GetAgreesWithScalar | src/database/sled/tables.rs:31-38 | the vector `get` equals the scalar `get` of the same partition, except that a failed store read gives `Ok(None)` instead of an error |
| EventTreeVec.SledEventTreeVec.constructor | src/database/sled/tables.rs:16-21 | `new` binds the table to the given partition and record codec, and the table's invariant holds from then on |
| EventTreeVec.SledEventTreeVec.Put | src/database/sled/tables.rs:40-45 | `put` fails with `EncodeError` or `StoreError` and leaves the tree unchanged; on success `get(key) == Ok(Some(s))`, no other key changes, the tree is the old one with `key` overwritten, and well-keyedness is preserved |
| EventTreeVec.SledEventTreeVec.Push | src/database/sled/tables.rs:47-57 | `push` stores `old ++ [x]` when `get` returned `Ok(Some(old))` and `[x]` otherwise (absent, undecodable or unreadable), as one overwrite of `key` in the tree; failures leave the tree unchanged; no other key changes; well-keyedness is preserved |
| EventTreeVec.SledEventTreeVec.Append | src/database/sled/tables.rs:62-69 | `append` as written: on a present key it returns `Ok(())` and leaves the tree unchanged; otherwise it stores `s` as `put` does, as one overwrite of `key`; no other key changes; well-keyedness is preserved |
| EventTreeVec.SledEventTreeVec.AppendPersisted | src/database/sled/tables.rs:59-60 | `append` as documented: on a present key it stores `old ++ s`; otherwise it stores `s`; either is one overwrite of `key`; failures leave the tree unchanged; no other key changes; well-keyedness is preserved |
| Scenarios.OverwriteScenario | src/database/sled/tables.rs:116-122 | two inserts at one key leave the second value |
| Scenarios.AbsentKeyScenario | src/database/sled/tables.rs:97-108 | on an untouched key, `get` is `Ok(None)` and `contains_key` is `Ok(false)` |
| Scenarios.NextKeyScenario | src/database/sled/tables.rs:130-136 | after inserting keys 0, 1, 2, `get_next_key()` returns 2 |
| Scenarios.ValueLookupScenario | src/database/sled/tables.rs:141-163 | in a fresh table holding `(k, v)`, `get_key_by_value(v) == Ok(Some(k))` and `designated_key(v) == k` |
| Scenarios.PushScenario | src/database/sled/tables.rs:42-57 | `put(k, [a, b]); push(k, c)` leaves `[a, b, c]` |
| Scenarios.PushAfterReadFaultScenario | src/database/sled/tables.rs:31-57 | a read fault inside `push` replaces the stored `[a, b]` with `[c]` |
| Scenarios.AppendOnAbsentScenario | src/database/sled/tables.rs:62-69 | `append(k, [a, b])` on an absent key leaves `[a, b]` |
| Scenarios.AppendOnPresentScenario | src/database/sled/tables.rs:62-69 | `append(k, [b])` on a key holding `[a]` reports `Ok(())` and `[a]` stays stored |
| Scenarios.AppendPersistedScenario | src/database/sled/tables.rs:59-60 | the corrected `append(k, [b])` on a key holding `[a]` leaves `[a, b]` |

## Left out

- `serde_cbor` internals: records are encoded and decoded by an arbitrary partial function pair. The only law assumed is that whatever encodes decodes back (`Record.Lawful`).
- `sled` internals (pages, flushing, persistence across restarts): the partition is an in-memory ascending sequence of entries.
- Store failures during iteration: the iterators' `flatten` in `contains_value`, `iter` and `get_key_by_value` drops failed items. The model's scans see every stored entry. A failure of `Tree::last` in `get_next_key`, which the code turns into 0, is not modelled either.
- `iter` returns a lazy, double-ended iterator. The model gives its whole forward output as a sequence. Reverse traversal and laziness are not modelled.
- Concurrency: `push` and `append` are a read followed by a write, and two concurrent callers can lose an update. All operations are modelled as sequential.
- EventTree.ContainsValue: an entry that fails to decode before the first match makes the Rust code panic; the model requires `ScanDecodes` instead and does not model the panic.
- EventTree.GetKeyByValue: a matching entry whose key is shorter than 8 bytes makes `array_ref!` panic; the model requires `KeyByValueDefined` instead and does not model the panic.
- EventTree.GetNextKey: a last key shorter than 8 bytes makes `array_ref!` panic; the model requires `NextKeyDefined` instead and does not model the panic.
- EventTree.DesignatedKey: inherits the two preconditions above, each only where the code reaches the call; the panics are not modelled.
- `PhantomData` markers: they are type-level only.
- Keys not written by `key_bytes`: the ordering lemmas assume every stored key has exactly 8 bytes (`WellKeyed`). Foreign keys of other lengths are not given a numeric order.
- `crate::error::Error` is not part of this model beyond its three kinds: encode, decode and store failure.
- `src/kerid.rs`, `src/kli.rs` and `src/daemon/mod.rs` are not part of this model: they hold the HTTP server, the command line, the logger and configuration.

## Findings

| source | as written | input that shows it | evidently intended | confidence | as-written member | corrected member |
|---|---|---|---|---|---|---|
| src/database/sled/tables.rs:62-69 | on a present key, `append` extends a local copy (`set.append(...)`) and returns `Ok(())` without writing it back | a key holding `[a]`, then `append(k, [b])`: `get(k)` still returns `[a]` | the stored sequence becomes `[a, b]`, as the comment at :59-60 says ("Appends one `Vec<T>` into DB present one") | high, not executed | EventTreeVec.SledEventTreeVec.Append, Scenarios.AppendOnPresentScenario | EventTreeVec.SledEventTreeVec.AppendPersisted, Scenarios.AppendPersistedScenario |
