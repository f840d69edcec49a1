# RocksDBPersist in Dafny

A model of Nessie's RocksDB-backed `Persist` implementation. This is the store that keeps a
repository's named references and its content-addressed objects in two column families of one
embedded RocksDB database. Several repositories share the database. Every key of a repository
is its id followed by `:` and then the reference name or the object id (`dbKey`).

The project has six modules:

- `Keys`: the key layout. It covers the repository prefix, `dbKey`, stripping the prefix, and
  removing every key of a prefix from a column family.
- `Types`: object ids, objects, references, the store configuration and the store's errors. It
  also holds point reads (`Lookup`) and batched reads (`MultiGet`) on a column family.
- `RefSpec`: the reference operations as pure steps on the references column family. Each step
  gives the operation's result and the column family after it. The module also holds the
  lifecycle lemmas: absent, live, tombstoned, absent again, with compare-and-swap on the
  expected (pointer, deleted) pair.
- `ObjSpec`: the object operations as pure steps on the objects column family. These are
  insert-if-absent store, overwriting upsert, lenient delete, and a batch fetch that reports
  every missing id.
- `ScanSpec`: the scan over all objects as a pure function of the cursor's key sequence. It
  holds the soundness, completeness and no-duplicates lemmas. It also holds the as-written `computeNext` that
  the finding below is about.
- `RocksDBPersist`: the imperative side.
  - `Backend` holds the two column families as `map` fields.
  - `Persist` holds one repository's operations as methods that update them. Each method
    states its result and the new state through the step functions above.
  - `ScanAllObjectsIterator` is the cursor-driven iterator. Its `Pending()` names the objects
    the remaining calls will yield.

## Model

| member | source | states |
|---|---|---|
| Keys.KeyPrefix | versioned/storage/rocksdb/src/main/java/org/projectnessie/versioned/storage/rocksdb/RocksDBPersist.java:64 | the repository prefix is the repository id followed by exactly one ':' byte |
| Keys.DbKey | versioned/storage/rocksdb/src/main/java/org/projectnessie/versioned/storage/rocksdb/RocksDBPersist.java:67-77 | a database key carries the repository prefix and, after it, exactly the name or id bytes |
| Keys.DbKeyRoundTrip | versioned/storage/rocksdb/src/main/java/org/projectnessie/versioned/storage/rocksdb/RocksDBPersist.java:67-69 | stripping the prefix from a database key gives back the name or id |
| Keys.StripPrefixRoundTrip | versioned/storage/rocksdb/src/main/java/org/projectnessie/versioned/storage/rocksdb/RocksDBPersist.java:543-558 | every prefixed key the scan meets is the database key of the id it strips to |
| Keys.DbKeyInjective | versioned/storage/rocksdb/src/main/java/org/projectnessie/versioned/storage/rocksdb/RocksDBPersist.java:67-69 | two names or ids of one repository share a database key exactly when they are equal |
| Keys.WithoutPrefix | versioned/storage/rocksdb/src/main/java/org/projectnessie/versioned/storage/rocksdb/RocksDBPersist.java:476-489 | a key survives erasure exactly when it lacks the repository prefix, and it keeps its value |
| Types.Lookup | versioned/storage/rocksdb/src/main/java/org/projectnessie/versioned/storage/rocksdb/RocksDBPersist.java:105 | a point read is present exactly when the key is in the column family, with the stored value |
| Types.MultiGet | versioned/storage/rocksdb/src/main/java/org/projectnessie/versioned/storage/rocksdb/RocksDBPersist.java:133 | a batched read gives one point-read result per key, in key order |
| RefSpec.CheckReference | versioned/storage/rocksdb/src/main/java/org/projectnessie/versioned/storage/rocksdb/RocksDBPersist.java:203-219 | the expectation holds exactly when the reference exists with the expected deleted flag and pointer; an absent reference gives NotFound carrying the caller's reference; a mismatch gives ConditionFailed carrying the stored one |
| RefSpec.AddReference | versioned/storage/rocksdb/src/main/java/org/projectnessie/versioned/storage/rocksdb/RocksDBPersist.java:153-171 | the add step: refuse a deleted reference, fail with the stored reference when the key is present, else store it (properties in RefSpec.AddReferenceContract) |
| RefSpec.MarkReferenceAsDeleted | versioned/storage/rocksdb/src/main/java/org/projectnessie/versioned/storage/rocksdb/RocksDBPersist.java:182-201 | the mark-as-deleted step: the shared check expecting a live entry, then the same pointer stored as deleted (properties in RefSpec.MarkReferenceAsDeletedContract) |
| RefSpec.PurgeReference | versioned/storage/rocksdb/src/main/java/org/projectnessie/versioned/storage/rocksdb/RocksDBPersist.java:222-239 | the purge step: the shared check expecting a tombstone, then the key removed (properties in RefSpec.PurgeReferenceContract) |
| RefSpec.UpdateReferencePointer | versioned/storage/rocksdb/src/main/java/org/projectnessie/versioned/storage/rocksdb/RocksDBPersist.java:244-266 | the update step: the shared check expecting a live entry, then (name, newPointer, live) stored (properties in RefSpec.UpdateReferencePointerContract) |
| RefSpec.AddReferenceContract | versioned/storage/rocksdb/src/main/java/org/projectnessie/versioned/storage/rocksdb/RocksDBPersist.java:153-171 | a deleted reference is refused; a present name, live or tombstoned, fails with AlreadyExists carrying the stored reference and changes nothing; otherwise exactly that reference is stored; success exactly when not deleted and absent |
| RefSpec.MarkReferenceAsDeletedContract | versioned/storage/rocksdb/src/main/java/org/projectnessie/versioned/storage/rocksdb/RocksDBPersist.java:182-201 | NotFound when absent; ConditionFailed with the stored reference when it is already deleted or points elsewhere; otherwise the same pointer is stored with the deleted flag set and returned |
| RefSpec.PurgeReferenceContract | versioned/storage/rocksdb/src/main/java/org/projectnessie/versioned/storage/rocksdb/RocksDBPersist.java:222-239 | NotFound when absent; ConditionFailed unless it is tombstoned with the expected pointer; otherwise the key is removed and no other key changes |
| RefSpec.UpdateReferencePointerContract | versioned/storage/rocksdb/src/main/java/org/projectnessie/versioned/storage/rocksdb/RocksDBPersist.java:244-266 | NotFound when absent; ConditionFailed with the stored reference when it is tombstoned or points elsewhere; otherwise it becomes (name, newPointer, live) and no other key changes |
| RefSpec.TombstoneBlocksAdd | versioned/storage/rocksdb/src/main/java/org/projectnessie/versioned/storage/rocksdb/RocksDBPersist.java:164-167 | after markReferenceAsDeleted, adding the same name fails with AlreadyExists carrying the tombstone |
| RefSpec.PurgeThenAddSucceeds | versioned/storage/rocksdb/src/main/java/org/projectnessie/versioned/storage/rocksdb/RocksDBPersist.java:231-233 | after a successful purge, adding the same name succeeds and stores the new reference |
| RefSpec.AddTwiceFails | versioned/storage/rocksdb/src/main/java/org/projectnessie/versioned/storage/rocksdb/RocksDBPersist.java:164-169 | a second add of a just-added name fails with AlreadyExists carrying the first reference |
| RefSpec.StaleUpdateFails | versioned/storage/rocksdb/src/main/java/org/projectnessie/versioned/storage/rocksdb/RocksDBPersist.java:255-259 | no lost update: once the pointer has moved, a second update with the stale expectation fails with ConditionFailed carrying the winner's reference |
| RefSpec.LifecycleRestores | versioned/storage/rocksdb/src/main/java/org/projectnessie/versioned/storage/rocksdb/RocksDBPersist.java:153-239 | add, then mark as deleted, then purge of a fresh name all succeed and leave the column family exactly as before |
| RefSpec.StepsKeepFiledByName | versioned/storage/rocksdb/src/main/java/org/projectnessie/versioned/storage/rocksdb/RocksDBPersist.java:162-259 | every reference operation keeps each stored reference under the key of its own name |
| ObjSpec.Deserialize | versioned/storage/rocksdb/src/main/java/org/projectnessie/versioned/storage/rocksdb/RocksDBPersist.java:282 | a deserialized object carries the id it was fetched under and the stored type |
| ObjSpec.Serialize | versioned/storage/rocksdb/src/main/java/org/projectnessie/versioned/storage/rocksdb/RocksDBPersist.java:382 | serialization fails with TooLarge exactly when the size check rejects the object under the given limits (round trip in ObjSpec.SerializeRoundTrip) |
| ObjSpec.SerializeRoundTrip | versioned/storage/rocksdb/src/main/java/org/projectnessie/versioned/storage/rocksdb/RocksDBPersist.java:382-384 | deserializing what serialization stored gives back the object |
| ObjSpec.StoreLimits | versioned/storage/rocksdb/src/main/java/org/projectnessie/versioned/storage/rocksdb/RocksDBPersist.java:378-381 | ignoring soft size restrictions uses Integer.MAX_VALUE for both limits, otherwise the configured limits |
| ObjSpec.StoreObj | versioned/storage/rocksdb/src/main/java/org/projectnessie/versioned/storage/rocksdb/RocksDBPersist.java:361-391 | the storeObj step (properties in ObjSpec.StoreObjContract) |
| ObjSpec.StoreObjs | versioned/storage/rocksdb/src/main/java/org/projectnessie/versioned/storage/rocksdb/RocksDBPersist.java:396-406 | the storeObjs step: storeObj without size override on each non-null slot, the first failure ending the batch (properties in the StoreObjs lemmas below) |
| ObjSpec.UpsertObj | versioned/storage/rocksdb/src/main/java/org/projectnessie/versioned/storage/rocksdb/RocksDBPersist.java:433-453 | the upsertObj step (properties in ObjSpec.UpsertObjOverwrites) |
| ObjSpec.UpsertObjs | versioned/storage/rocksdb/src/main/java/org/projectnessie/versioned/storage/rocksdb/RocksDBPersist.java:456-461 | the upsertObjs step: upsertObj on each object, the first failure ending the batch (properties in the UpsertObjs lemmas below) |
| ObjSpec.FetchObjs | versioned/storage/rocksdb/src/main/java/org/projectnessie/versioned/storage/rocksdb/RocksDBPersist.java:314-358 | the fetchObjs step: NotFound with the missing ids, or one slot per id (properties in ObjSpec.FetchObjsContract) |
| ObjSpec.MissingIds | versioned/storage/rocksdb/src/main/java/org/projectnessie/versioned/storage/rocksdb/RocksDBPersist.java:333-351 | the not-found list built in input order (characterized by ObjSpec.MissingIdsExactly) |
| ObjSpec.FetchObjsContract | versioned/storage/rocksdb/src/main/java/org/projectnessie/versioned/storage/rocksdb/RocksDBPersist.java:314-358 | fetchObjs fails exactly when some non-null id has no object, reporting the missing ids in order; on success a null id gives a null slot and every other id its stored object |
| ObjSpec.MissingIdsExactly | versioned/storage/rocksdb/src/main/java/org/projectnessie/versioned/storage/rocksdb/RocksDBPersist.java:335-351 | the not-found list holds exactly the non-null ids whose object is absent |
| ObjSpec.StoreObjContract | versioned/storage/rocksdb/src/main/java/org/projectnessie/versioned/storage/rocksdb/RocksDBPersist.java:361-391 | a null id is refused; a present id gives false, leaves the column family unchanged and ignores the size check; otherwise TooLarge exactly when the size check rejects the object under the effective limits, else true with the object stored under its key and nothing else changed |
| ObjSpec.StoreTwice | versioned/storage/rocksdb/src/main/java/org/projectnessie/versioned/storage/rocksdb/RocksDBPersist.java:373-376 | storing the same object twice gives true, then false, with the state unchanged by the second call |
| ObjSpec.StoreObjKeepsStored | versioned/storage/rocksdb/src/main/java/org/projectnessie/versioned/storage/rocksdb/RocksDBPersist.java:373-384 | storeObj never replaces a stored value |
| ObjSpec.StoreObjsFailureSticks | versioned/storage/rocksdb/src/main/java/org/projectnessie/versioned/storage/rocksdb/RocksDBPersist.java:396-406 | once a prefix of the batch fails, the whole batch has that outcome; later objects are not stored |
| ObjSpec.StoreObjsStoresAll | versioned/storage/rocksdb/src/main/java/org/projectnessie/versioned/storage/rocksdb/RocksDBPersist.java:396-406 | storeObjs replaces nothing stored before; on success its results align with the batch, null slots give false, and the key of every object of the batch is present |
| ObjSpec.StoreObjsDomain | versioned/storage/rocksdb/src/main/java/org/projectnessie/versioned/storage/rocksdb/RocksDBPersist.java:396-406 | on success the objects column family gains exactly the keys of the batch's objects |
| ObjSpec.StoreObjsResults | versioned/storage/rocksdb/src/main/java/org/projectnessie/versioned/storage/rocksdb/RocksDBPersist.java:399-404 | on success slot i is true exactly when it holds an object whose key was neither stored before the call nor used by an earlier slot, which is what storeObj returns for it |
| ObjSpec.StoreObjsNewSlotsStored | versioned/storage/rocksdb/src/main/java/org/projectnessie/versioned/storage/rocksdb/RocksDBPersist.java:399-404 | on success every slot reported true has its object stored under its key |
| ObjSpec.UpsertObjOverwrites | versioned/storage/rocksdb/src/main/java/org/projectnessie/versioned/storage/rocksdb/RocksDBPersist.java:433-453 | upsertObj of an object with an id that fits the limits succeeds and stores it under its key whatever was there, changing no other key |
| ObjSpec.UpsertObjsFailureSticks | versioned/storage/rocksdb/src/main/java/org/projectnessie/versioned/storage/rocksdb/RocksDBPersist.java:456-461 | once a prefix of the batch fails, the whole batch has that outcome |
| ObjSpec.UpsertObjsStoresAll | versioned/storage/rocksdb/src/main/java/org/projectnessie/versioned/storage/rocksdb/RocksDBPersist.java:456-461 | on success the key of every object of the batch is present |
| ObjSpec.UpsertObjsDomain | versioned/storage/rocksdb/src/main/java/org/projectnessie/versioned/storage/rocksdb/RocksDBPersist.java:456-461 | on success the objects column family gains exactly the batch's keys and every other key keeps its value |
| ObjSpec.UpsertObjsLastWins | versioned/storage/rocksdb/src/main/java/org/projectnessie/versioned/storage/rocksdb/RocksDBPersist.java:456-461 | on success each key holds the last object of the batch with that id |
| ObjSpec.DeleteObjsContract | versioned/storage/rocksdb/src/main/java/org/projectnessie/versioned/storage/rocksdb/RocksDBPersist.java:409-430 | deletion removes exactly the given ids' keys, and deleting absent ids changes nothing and is no error |
| ScanSpec.ObjectAt | versioned/storage/rocksdb/src/main/java/org/projectnessie/versioned/storage/rocksdb/RocksDBPersist.java:543-561 | the object one cursor key gives: none for another repository's key, a vanished object or a filtered type, else the stored object under the id the key strips to |
| ScanSpec.Emit | versioned/storage/rocksdb/src/main/java/org/projectnessie/versioned/storage/rocksdb/RocksDBPersist.java:523-565 | the objects the remaining calls of the corrected iterator yield, skipping a key equal to the one just seen (properties in EmitSound, EmitNoRepeats, ScanComplete) |
| ScanSpec.EmitSound | versioned/storage/rocksdb/src/main/java/org/projectnessie/versioned/storage/rocksdb/RocksDBPersist.java:523-565 | every scanned object has an id, passes the type filter, is exactly what the column family holds under this repository's key for that id, and comes from a cursor position whose key differs from the previous key |
| ScanSpec.EmitNoRepeats | versioned/storage/rocksdb/src/main/java/org/projectnessie/versioned/storage/rocksdb/RocksDBPersist.java:537-541 | on a cursor whose repeated keys are adjacent, the scan never yields the same object id twice |
| ScanSpec.EmitAfterAvoidsId | versioned/storage/rocksdb/src/main/java/org/projectnessie/versioned/storage/rocksdb/RocksDBPersist.java:537-541 | on a cursor whose repeats are adjacent, nothing yielded after the object of a key has that object's id |
| ScanSpec.EmitFindsKey | versioned/storage/rocksdb/src/main/java/org/projectnessie/versioned/storage/rocksdb/RocksDBPersist.java:537-561 | every object the cursor can yield for a key still ahead of it, other than the key just seen, is yielded |
| ScanSpec.ScanComplete | versioned/storage/rocksdb/src/main/java/org/projectnessie/versioned/storage/rocksdb/RocksDBPersist.java:519-561 | a scan over a cursor that visits every key of the objects column family yields every object of the repository whose type passes the filter |
| ScanSpec.KeyLeAntisymmetric | versioned/storage/rocksdb/src/main/java/org/projectnessie/versioned/storage/rocksdb/RocksDBPersist.java:537-540 | bytewise key order is antisymmetric |
| ScanSpec.InOrderIsGrouped | versioned/storage/rocksdb/src/main/java/org/projectnessie/versioned/storage/rocksdb/RocksDBPersist.java:537-540 | a cursor in bytewise key order has its repeated keys adjacent |
| ScanSpec.AsWrittenComputeNext | versioned/storage/rocksdb/src/main/java/org/projectnessie/versioned/storage/rocksdb/RocksDBPersist.java:523-565 | as written, a call ends the data exactly when the cursor is already invalid on entry; otherwise it yields an object with its position and key, or advances past the end and reads the key of an invalid cursor |
| ScanSpec.AsWrittenReadsPastEnd | versioned/storage/rocksdb/src/main/java/org/projectnessie/versioned/storage/rocksdb/RocksDBPersist.java:526-536 | as written, a call made with the cursor on its last key advances past the end and then reads the key of an invalid cursor |
| ScanSpec.AsWrittenSingleObjectScan | versioned/storage/rocksdb/src/main/java/org/projectnessie/versioned/storage/rocksdb/RocksDBPersist.java:524-562 | as written, scanning a repository with one object yields it and then reads past the end |
| RocksDBPersist.Persist.constructor | versioned/storage/rocksdb/src/main/java/org/projectnessie/versioned/storage/rocksdb/RocksDBPersist.java:60-65 | the store keeps the backend and the configuration, and its key prefix is the repository id followed by ':' |
| RocksDBPersist.Persist.FetchReference | versioned/storage/rocksdb/src/main/java/org/projectnessie/versioned/storage/rocksdb/RocksDBPersist.java:98-110 | present exactly when the name's key is in the references column family, with the stored reference, whose name is the one asked for |
| RocksDBPersist.Persist.CollectNameKeys | versioned/storage/rocksdb/src/main/java/org/projectnessie/versioned/storage/rocksdb/RocksDBPersist.java:121-130 | the keys collected are the database keys of the non-null names, in order |
| RocksDBPersist.Persist.FillRefSlots | versioned/storage/rocksdb/src/main/java/org/projectnessie/versioned/storage/rocksdb/RocksDBPersist.java:132-142 | walking the names beside the multi-get results puts each non-null name's point read in its slot and leaves null names null |
| RocksDBPersist.Persist.FetchReferences | versioned/storage/rocksdb/src/main/java/org/projectnessie/versioned/storage/rocksdb/RocksDBPersist.java:115-148 | one slot per name: null for a null name, else the point read of that name |
| RocksDBPersist.Persist.AddReference | versioned/storage/rocksdb/src/main/java/org/projectnessie/versioned/storage/rocksdb/RocksDBPersist.java:153-177 | result and new references column family are the add step; the objects column family is unchanged |
| RocksDBPersist.Persist.MarkReferenceAsDeleted | versioned/storage/rocksdb/src/main/java/org/projectnessie/versioned/storage/rocksdb/RocksDBPersist.java:182-201 | result and new references column family are the mark-as-deleted step; the objects are unchanged |
| RocksDBPersist.Persist.PurgeReference | versioned/storage/rocksdb/src/main/java/org/projectnessie/versioned/storage/rocksdb/RocksDBPersist.java:222-239 | result and new references column family are the purge step; the objects are unchanged |
| RocksDBPersist.Persist.UpdateReferencePointer | versioned/storage/rocksdb/src/main/java/org/projectnessie/versioned/storage/rocksdb/RocksDBPersist.java:244-266 | result and new references column family are the update step; the objects are unchanged |
| RocksDBPersist.Persist.FetchObj | versioned/storage/rocksdb/src/main/java/org/projectnessie/versioned/storage/rocksdb/RocksDBPersist.java:271-286 | succeeds exactly when the id's key is stored, with the deserialized object; otherwise NotFound naming the id |
| RocksDBPersist.Persist.FetchTypedObj | versioned/storage/rocksdb/src/main/java/org/projectnessie/versioned/storage/rocksdb/RocksDBPersist.java:291-301 | succeeds exactly when the object is stored with the requested type; a missing object and a type mismatch both give NotFound naming the id |
| RocksDBPersist.Persist.FetchObjType | versioned/storage/rocksdb/src/main/java/org/projectnessie/versioned/storage/rocksdb/RocksDBPersist.java:306-309 | succeeds exactly when the object is stored, giving its type; otherwise NotFound naming the id |
| RocksDBPersist.Persist.CollectObjKeys | versioned/storage/rocksdb/src/main/java/org/projectnessie/versioned/storage/rocksdb/RocksDBPersist.java:321-330 | the keys collected are the database keys of the non-null ids, in order |
| RocksDBPersist.Persist.FillSlots | versioned/storage/rocksdb/src/main/java/org/projectnessie/versioned/storage/rocksdb/RocksDBPersist.java:332-348 | walking the ids beside the multi-get results fills every slot with its object, or null, and lists exactly the missing ids in order |
| RocksDBPersist.Persist.FetchObjs | versioned/storage/rocksdb/src/main/java/org/projectnessie/versioned/storage/rocksdb/RocksDBPersist.java:314-358 | the result is the fetchObjs step (see ObjSpec.FetchObjsContract) |
| RocksDBPersist.Persist.StoreObj | versioned/storage/rocksdb/src/main/java/org/projectnessie/versioned/storage/rocksdb/RocksDBPersist.java:361-391 | result and new objects column family are the store step; references are unchanged |
| RocksDBPersist.Persist.StoreObjs | versioned/storage/rocksdb/src/main/java/org/projectnessie/versioned/storage/rocksdb/RocksDBPersist.java:396-406 | result and new objects column family are the batch store step, storing each non-null object without size override and stopping at the first failure |
| RocksDBPersist.Persist.DeleteObj | versioned/storage/rocksdb/src/main/java/org/projectnessie/versioned/storage/rocksdb/RocksDBPersist.java:409-423 | exactly the id's key is removed, absent or not; references are unchanged |
| RocksDBPersist.Persist.DeleteObjs | versioned/storage/rocksdb/src/main/java/org/projectnessie/versioned/storage/rocksdb/RocksDBPersist.java:426-430 | exactly the keys of the given ids are removed |
| RocksDBPersist.Persist.UpsertObj | versioned/storage/rocksdb/src/main/java/org/projectnessie/versioned/storage/rocksdb/RocksDBPersist.java:433-453 | result and new objects column family are the upsert step; references are unchanged |
| RocksDBPersist.Persist.UpsertObjs | versioned/storage/rocksdb/src/main/java/org/projectnessie/versioned/storage/rocksdb/RocksDBPersist.java:456-461 | result and new objects column family are the batch upsert step, stopping at the first failure |
| RocksDBPersist.Persist.CollectPrefixed | versioned/storage/rocksdb/src/main/java/org/projectnessie/versioned/storage/rocksdb/RocksDBPersist.java:474-481 | the keys collected from a column family are exactly its keys that carry the repository prefix |
| RocksDBPersist.Persist.Erase | versioned/storage/rocksdb/src/main/java/org/projectnessie/versioned/storage/rocksdb/RocksDBPersist.java:464-492 | both column families lose exactly this repository's keys; every other key keeps its value |
| RocksDBPersist.Persist.ScanAllObjects | versioned/storage/rocksdb/src/main/java/org/projectnessie/versioned/storage/rocksdb/RocksDBPersist.java:497-521 | given a cursor over exactly the keys of the objects column family in bytewise order, as `newIterator` plus `seekToFirst` give: a fresh iterator whose pending objects are the whole scan, which contains every stored object of the repository whose type passes the filter and no object id twice |
| RocksDBPersist.ScanAllObjectsIterator.ComputeNext | versioned/storage/rocksdb/src/main/java/org/projectnessie/versioned/storage/rocksdb/RocksDBPersist.java:523-565 | with the validity re-check after advancing: returns the first pending object and leaves the rest pending, or ends the data exactly when nothing is pending |

## Left out

- Locks (`referencesLock`, `objLock`) and concurrency: each operation is one atomic step on the column families. Interleavings are not modelled, and neither is `erase`'s deliberate lack of a lock.
- `rocksDbException` wrapping of native failures: native calls never fail in the model.
- Object and reference serialization: a stored object is its type and payload, with the id taken from the key, and a stored reference is the reference value itself. The size check inside object serialization is a function-valued parameter (`exceedsLimits`). The effective size limits are the configured values.
- Encoding of names and the repository id as UTF-8: they are given as their bytes.
- The set of column families behind `RocksDBBackend.all()` is taken to be exactly the references and the objects column families. `RocksDBBackend` is not part of this model. The model's `Backend` class stands for it and starts with both column families empty.
- The native cursor: the key sequence it visits is a parameter (`cursorKeys`) of the scan. `ScanAllObjects` requires that it holds exactly the keys of the objects column family, in bytewise order. The lemmas about `Emit` hold for any key sequence, or for one whose repeats are adjacent. `close()` of the iterator is left out.
- `name()` and `config()` accessors: they only return constants.
- RocksDBPersist.ScanAllObjectsIterator.ComputeNext: models the corrected iterator, not the one as written (see Findings). The iterator reads the object column family at each call, as the source does. The scan's `Pending()` is therefore stated against the current column family, and writes between calls are not modelled.
- Repository ids that contain ':' give prefixes that are prefixes of one another. The model states erase and scan per prefix and does not state isolation between such repositories.

## Findings

| source | as written | input that shows it | evidently intended | confidence | as-written member | corrected member |
|---|---|---|---|---|---|---|
| versioned/storage/rocksdb/src/main/java/org/projectnessie/versioned/storage/rocksdb/RocksDBPersist.java:526-536 | `computeNext` tests `iter.isValid()` only before `iter.next()` and then reads `iter.key()`; after a yield on the last key, the next call advances the cursor past the end and reads the key of an invalid iterator. Since the cursor only becomes invalid through `next()` and `key()` follows it at once, every complete scan of a non-empty cursor ends this way. The comment at :538 about the same key coming back twice may describe this read, with the `lastKey` check hiding its effect | a repository holding one object: the first call yields it, the second calls `next()` on the last key and then `key()` on an invalid cursor | test validity again after advancing and end the data when the cursor has run off the end | not executed | ScanSpec.AsWrittenComputeNext | RocksDBPersist.ScanAllObjectsIterator.ComputeNext |
