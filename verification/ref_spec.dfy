/**
  The reference protocol of the store as pure steps on the references column family: each
  step takes the column family before the call and gives the call's result and the column
  family after it. A reference name goes absent -> live -> tombstoned -> absent, and every
  mutation is accepted only when the stored (pointer, deleted) pair is the expected one.
 */
module RefSpec {
  import opened Keys
  import opened Types

  /** The references column family: database key to stored reference. */
  type RefMap = map<Key, Reference>

  /** The outcome of one reference operation: what it returns and the column family after it. */
  datatype RefStep<T> = RefStep(result: Result<T, PersistError>, refs: RefMap)

  /**
    The expectation check shared by the mutating operations: the stored reference must exist,
    carry the expected deleted flag and the caller's pointer.
   */
  function CheckReference(stored: Option<Reference>, reference: Reference, expectDeleted: bool)
    : (e: Option<PersistError>)
    ensures e.None? <==>
      stored.Some? && stored.value.deleted == expectDeleted && stored.value.pointer == reference.pointer
    ensures stored.None? ==> e == Some(RefNotFound(reference))
    ensures stored.Some? && e.Some? ==> e == Some(RefConditionFailed(stored.value))
  {
    match stored
    case None => Some(RefNotFound(reference))
    case Some(ref) =>
      if ref.deleted != expectDeleted || ref.pointer != reference.pointer then Some(RefConditionFailed(ref))
      else None
  }

  function AddReference(prefix: Key, refs: RefMap, reference: Reference): RefStep<Reference> {
    if reference.deleted then RefStep(Failure(IllegalArgument), refs)
    else
      var key := DbKey(prefix, reference.name);
      if key in refs then RefStep(Failure(RefAlreadyExists(refs[key])), refs)
      else RefStep(Success(reference), refs[key := reference])
  }

  function MarkReferenceAsDeleted(prefix: Key, refs: RefMap, reference: Reference): RefStep<Reference> {
    var key := DbKey(prefix, reference.name);
    match CheckReference(Lookup(refs, key), reference, false)
    case Some(e) => RefStep(Failure(e), refs)
    case None =>
      var asDeleted := Reference(reference.name, reference.pointer, true);
      RefStep(Success(asDeleted), refs[key := asDeleted])
  }

  function PurgeReference(prefix: Key, refs: RefMap, reference: Reference): RefStep<()> {
    var key := DbKey(prefix, reference.name);
    match CheckReference(Lookup(refs, key), reference, true)
    case Some(e) => RefStep(Failure(e), refs)
    case None => RefStep(Success(()), refs - {key})
  }

  function UpdateReferencePointer(prefix: Key, refs: RefMap, reference: Reference, newPointer: ObjId)
    : RefStep<Reference>
  {
    var key := DbKey(prefix, reference.name);
    match CheckReference(Lookup(refs, key), reference, false)
    case Some(e) => RefStep(Failure(e), refs)
    case None =>
      var updated := Reference(reference.name, newPointer, false);
      RefStep(Success(updated), refs[key := updated])
  }

  /** Every stored reference of this repository sits under the key of its own name. */
  ghost predicate FiledByName(prefix: Key, refs: RefMap) {
    forall k | k in refs && HasPrefix(k, prefix) :: refs[k].name == StripPrefix(prefix, k)
  }

  /**
    addReference: a deleted reference is refused; a name that is present, live or tombstoned,
    fails with AlreadyExists carrying the stored reference and changes nothing; otherwise
    exactly the given reference is stored and returned.
   */
  lemma AddReferenceContract(prefix: Key, refs: RefMap, reference: Reference)
    ensures var s := AddReference(prefix, refs, reference); var key := DbKey(prefix, reference.name);
      && (reference.deleted ==> s == RefStep(Failure(IllegalArgument), refs))
      && (!reference.deleted && key in refs ==> s == RefStep(Failure(RefAlreadyExists(refs[key])), refs))
      && (!reference.deleted && key !in refs ==> s == RefStep(Success(reference), refs[key := reference]))
      && (s.result.Success? <==> !reference.deleted && key !in refs)
  {
  }

  /**
    updateReferencePointer: NotFound when the name is absent; ConditionFailed carrying the
    stored reference when it is tombstoned or points elsewhere; otherwise the entry becomes
    (name, newPointer, live) and no other key changes.
   */
  lemma UpdateReferencePointerContract(prefix: Key, refs: RefMap, reference: Reference, newPointer: ObjId)
    ensures var s := UpdateReferencePointer(prefix, refs, reference, newPointer);
      var key := DbKey(prefix, reference.name);
      && (key !in refs ==> s == RefStep(Failure(RefNotFound(reference)), refs))
      && (key in refs && (refs[key].deleted || refs[key].pointer != reference.pointer) ==>
            s == RefStep(Failure(RefConditionFailed(refs[key])), refs))
      && (key in refs && !refs[key].deleted && refs[key].pointer == reference.pointer ==>
            var updated := Reference(reference.name, newPointer, false);
            s == RefStep(Success(updated), refs[key := updated]))
      && (forall k | k != key :: Lookup(s.refs, k) == Lookup(refs, k))
  {
  }

  /**
    markReferenceAsDeleted: succeeds only on a live entry with the expected pointer and then
    stores the same pointer with the deleted flag set.
   */
  lemma MarkReferenceAsDeletedContract(prefix: Key, refs: RefMap, reference: Reference)
    ensures var s := MarkReferenceAsDeleted(prefix, refs, reference);
      var key := DbKey(prefix, reference.name);
      && (key !in refs ==> s == RefStep(Failure(RefNotFound(reference)), refs))
      && (key in refs && (refs[key].deleted || refs[key].pointer != reference.pointer) ==>
            s == RefStep(Failure(RefConditionFailed(refs[key])), refs))
      && (key in refs && !refs[key].deleted && refs[key].pointer == reference.pointer ==>
            var asDeleted := Reference(reference.name, reference.pointer, true);
            s == RefStep(Success(asDeleted), refs[key := asDeleted]))
  {
  }

  /**
    purgeReference: succeeds only on a tombstoned entry with the expected pointer and then
    removes the name; every other key keeps its value.
   */
  lemma PurgeReferenceContract(prefix: Key, refs: RefMap, reference: Reference)
    ensures var s := PurgeReference(prefix, refs, reference);
      var key := DbKey(prefix, reference.name);
      && (key !in refs ==> s == RefStep(Failure(RefNotFound(reference)), refs))
      && (key in refs && (!refs[key].deleted || refs[key].pointer != reference.pointer) ==>
            s == RefStep(Failure(RefConditionFailed(refs[key])), refs))
      && (key in refs && refs[key].deleted && refs[key].pointer == reference.pointer ==>
            s.result == Success(()) && key !in s.refs)
      && (forall k | k != key :: Lookup(s.refs, k) == Lookup(refs, k))
  {
  }

  /** A tombstone still occupies its name: addReference cannot resurrect it. */
  lemma TombstoneBlocksAdd(prefix: Key, refs: RefMap, live: Reference, reference: Reference)
    requires MarkReferenceAsDeleted(prefix, refs, live).result.Success?
    requires reference.name == live.name && !reference.deleted
    ensures var tombstone := Reference(live.name, live.pointer, true);
      AddReference(prefix, MarkReferenceAsDeleted(prefix, refs, live).refs, reference).result
        == Failure(RefAlreadyExists(tombstone))
  {
  }

  /** After a successful purge, addReference of the same name succeeds again. */
  lemma PurgeThenAddSucceeds(prefix: Key, refs: RefMap, tombstone: Reference, reference: Reference)
    requires PurgeReference(prefix, refs, tombstone).result.Success?
    requires reference.name == tombstone.name && !reference.deleted
    ensures var purged := PurgeReference(prefix, refs, tombstone).refs;
      AddReference(prefix, purged, reference)
        == RefStep(Success(reference), purged[DbKey(prefix, reference.name) := reference])
  {
  }

  /** A second addReference of a name that was just added fails, carrying the first. */
  lemma AddTwiceFails(prefix: Key, refs: RefMap, first: Reference, second: Reference)
    requires AddReference(prefix, refs, first).result.Success?
    requires second.name == first.name && !second.deleted
    ensures AddReference(prefix, AddReference(prefix, refs, first).refs, second).result
      == Failure(RefAlreadyExists(first))
  {
  }

  /**
    No lost update: once one writer has moved the pointer away from the expected value, a
    second writer with the same (now stale) expectation fails and sees the winner's state.
   */
  lemma StaleUpdateFails(prefix: Key, refs: RefMap, reference: Reference, winner: ObjId, loser: ObjId)
    requires UpdateReferencePointer(prefix, refs, reference, winner).result.Success?
    requires winner != reference.pointer
    ensures UpdateReferencePointer(prefix, UpdateReferencePointer(prefix, refs, reference, winner).refs,
                                   reference, loser).result
      == Failure(RefConditionFailed(Reference(reference.name, winner, false)))
  {
  }

  /**
    The whole lifecycle of a fresh name - add, mark as deleted, purge - succeeds at every
    step and leaves the column family exactly as it was.
   */
  lemma LifecycleRestores(prefix: Key, refs: RefMap, reference: Reference)
    requires !reference.deleted && DbKey(prefix, reference.name) !in refs
    ensures var added := AddReference(prefix, refs, reference);
      var marked := MarkReferenceAsDeleted(prefix, added.refs, reference);
      && added.result.Success? && marked.result.Success?
      && PurgeReference(prefix, marked.refs, marked.result.value) == RefStep(Success(()), refs)
  {
    var key := DbKey(prefix, reference.name);
    var tombstone := Reference(reference.name, reference.pointer, true);
    assert refs[key := reference][key := tombstone] - {key} == refs;
  }

  /** Every reference operation keeps each stored reference under the key of its own name. */
  lemma StepsKeepFiledByName(prefix: Key, refs: RefMap, reference: Reference, newPointer: ObjId)
    requires FiledByName(prefix, refs)
    ensures FiledByName(prefix, AddReference(prefix, refs, reference).refs)
    ensures FiledByName(prefix, MarkReferenceAsDeleted(prefix, refs, reference).refs)
    ensures FiledByName(prefix, PurgeReference(prefix, refs, reference).refs)
    ensures FiledByName(prefix, UpdateReferencePointer(prefix, refs, reference, newPointer).refs)
  {
    DbKeyRoundTrip(prefix, reference.name);
  }
}
