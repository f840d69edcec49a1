/**
  The embedded key-value backend's implementation of the object/reference store. A Backend
  holds the two column families shared by every repository; a Persist is one repository's view
  of them, keyed under its own prefix. Each operation is one atomic step: a keyed read followed
  by a conditional write.
 */
module RocksDBPersist {
  import opened Keys
  import opened Types
  import RefSpec
  import ObjSpec
  import ScanSpec

  /** The database: the references and the objects column families. */
  class Backend {
    var refs: RefSpec.RefMap
    var objs: ObjSpec.ObjMap

    constructor ()
      ensures refs == map[] && objs == map[]
    {
      refs := map[];
      objs := map[];
    }
  }

  class Persist {
    const backend: Backend
    const config: StoreConfig
    const keyPrefix: Key
    /** The size check that object serialization applies. */
    const exceedsLimits: ObjSpec.SizeCheck

    constructor (backend: Backend, config: StoreConfig, exceedsLimits: ObjSpec.SizeCheck)
      ensures this.backend == backend && this.config == config && this.exceedsLimits == exceedsLimits
      ensures keyPrefix == KeyPrefix(config.repositoryId)
    {
      this.backend := backend;
      this.config := config;
      this.exceedsLimits := exceedsLimits;
      this.keyPrefix := KeyPrefix(config.repositoryId);
    }

    method FetchReference(name: RefName) returns (r: Option<Reference>)
      ensures r.Some? <==> DbKey(keyPrefix, name) in backend.refs
      ensures r.Some? ==> r.value == backend.refs[DbKey(keyPrefix, name)]
      ensures r.Some? && RefSpec.FiledByName(keyPrefix, backend.refs) ==> r.value.name == name
    {
      var key := DbKey(keyPrefix, name);
      r := Lookup(backend.refs, key);
      DbKeyRoundTrip(keyPrefix, name);
    }

    /** The database keys of the non-null names, in slot order. */
    static function NameKeys(prefix: Key, names: seq<Option<RefName>>): seq<Key>
    {
      if names == [] then []
      else
        match names[0]
        case None => NameKeys(prefix, names[1..])
        case Some(name) => [DbKey(prefix, name)] + NameKeys(prefix, names[1..])
    }

    /** A batch of names with no key has no non-null name. */
    static lemma {:induction false} NoNameKeys(prefix: Key, names: seq<Option<RefName>>)
      requires NameKeys(prefix, names) == []
      ensures forall i | 0 <= i < |names| :: names[i].None?
    {
      if names != [] {
        NoNameKeys(prefix, names[1..]);
        assert forall i | 1 <= i < |names| :: names[i] == names[1..][i - 1];
      }
    }

    /** What fetchReferences puts in the slot of `name`: null for a null name, else the stored reference. */
    static function RefSlot(prefix: Key, refs: RefSpec.RefMap, name: Option<RefName>): Option<Reference> {
      match name
      case None => None
      case Some(n) => Lookup(refs, DbKey(prefix, n))
    }

    /** The first pass of fetchReferences: the database key of every non-null name, in order. */
    static method CollectNameKeys(prefix: Key, names: seq<Option<RefName>>) returns (keys: seq<Key>)
      ensures keys == NameKeys(prefix, names)
    {
      keys := [];
      for i := 0 to |names|
        invariant keys + NameKeys(prefix, names[i..]) == NameKeys(prefix, names)
      {
        assert names[i..][1..] == names[i + 1..];
        if names[i].Some? {
          keys := keys + [DbKey(prefix, names[i].value)];
        }
      }
      assert names[|names|..] == [];
    }

    /**
      The second pass of fetchReferences: walk the names beside the multi-get results and put
      each non-null name's reference in its slot.
     */
    static method FillRefSlots(prefix: Key, refs: RefSpec.RefMap, names: seq<Option<RefName>>, keys: seq<Key>,
                               dbResult: seq<Option<Reference>>, res: array<Option<Reference>>)
      requires keys == NameKeys(prefix, names) && dbResult == MultiGet(refs, keys)
      requires res.Length == |names|
      requires forall j | 0 <= j < |names| :: res[j].None?
      modifies res
      ensures forall j | 0 <= j < |names| :: res[j] == RefSlot(prefix, refs, names[j])
    {
      var ri := 0;
      for i := 0 to |names|
        invariant ri <= |keys| && keys[ri..] == NameKeys(prefix, names[i..])
        invariant forall j | 0 <= j < i :: res[j] == RefSlot(prefix, refs, names[j])
        invariant forall j | i <= j < |names| :: res[j].None?
      {
        assert names[i..][1..] == names[i + 1..];
        if names[i].Some? {
          assert keys[ri..][1..] == keys[ri + 1..];
          res[i] := dbResult[ri];
          ri := ri + 1;
        }
      }
    }

    method FetchReferences(names: seq<Option<RefName>>) returns (r: seq<Option<Reference>>)
      ensures |r| == |names|
      ensures forall i | 0 <= i < |names| && names[i].None? :: r[i].None?
      ensures forall i | 0 <= i < |names| && names[i].Some? ::
        r[i] == Lookup(backend.refs, DbKey(keyPrefix, names[i].value))
    {
      var refs := backend.refs;
      var res := new Option<Reference>[|names|](_ => None);
      var keys := CollectNameKeys(keyPrefix, names);
      if keys != [] {
        var dbResult := MultiGet(refs, keys);
        FillRefSlots(keyPrefix, refs, names, keys, dbResult, res);
      } else {
        NoNameKeys(keyPrefix, names);
      }
      r := res[..];
      assert forall j | 0 <= j < |names| :: r[j] == RefSlot(keyPrefix, refs, names[j]);
    }

    method AddReference(reference: Reference) returns (r: Result<Reference, PersistError>)
      modifies backend
      ensures RefSpec.RefStep(r, backend.refs) == RefSpec.AddReference(keyPrefix, old(backend.refs), reference)
      ensures backend.objs == old(backend.objs)
    {
      if reference.deleted {
        return Failure(IllegalArgument);
      }
      var key := DbKey(keyPrefix, reference.name);
      var existing := Lookup(backend.refs, key);
      if existing.Some? {
        return Failure(RefAlreadyExists(existing.value));
      }
      backend.refs := backend.refs[key := reference];
      r := Success(reference);
    }

    method MarkReferenceAsDeleted(reference: Reference) returns (r: Result<Reference, PersistError>)
      modifies backend
      ensures RefSpec.RefStep(r, backend.refs) == RefSpec.MarkReferenceAsDeleted(keyPrefix, old(backend.refs), reference)
      ensures backend.objs == old(backend.objs)
    {
      var key := DbKey(keyPrefix, reference.name);
      var failed := RefSpec.CheckReference(Lookup(backend.refs, key), reference, false);
      if failed.Some? {
        return Failure(failed.value);
      }
      var asDeleted := Reference(reference.name, reference.pointer, true);
      backend.refs := backend.refs[key := asDeleted];
      r := Success(asDeleted);
    }

    method PurgeReference(reference: Reference) returns (r: Result<(), PersistError>)
      modifies backend
      ensures RefSpec.RefStep(r, backend.refs) == RefSpec.PurgeReference(keyPrefix, old(backend.refs), reference)
      ensures backend.objs == old(backend.objs)
    {
      var key := DbKey(keyPrefix, reference.name);
      var failed := RefSpec.CheckReference(Lookup(backend.refs, key), reference, true);
      if failed.Some? {
        return Failure(failed.value);
      }
      backend.refs := backend.refs - {key};
      r := Success(());
    }

    method UpdateReferencePointer(reference: Reference, newPointer: ObjId) returns (r: Result<Reference, PersistError>)
      modifies backend
      ensures RefSpec.RefStep(r, backend.refs)
        == RefSpec.UpdateReferencePointer(keyPrefix, old(backend.refs), reference, newPointer)
      ensures backend.objs == old(backend.objs)
    {
      var key := DbKey(keyPrefix, reference.name);
      var failed := RefSpec.CheckReference(Lookup(backend.refs, key), reference, false);
      if failed.Some? {
        return Failure(failed.value);
      }
      var updated := Reference(reference.name, newPointer, false);
      backend.refs := backend.refs[key := updated];
      r := Success(updated);
    }

    method FetchObj(id: ObjId) returns (r: Result<Obj, PersistError>)
      ensures r.Success? <==> DbKey(keyPrefix, id.bytes) in backend.objs
      ensures r.Failure? ==> r.error == ObjNotFound([id])
      ensures r.Success? ==> r.value == ObjSpec.Deserialize(id, backend.objs[DbKey(keyPrefix, id.bytes)])
    {
      var key := DbKey(keyPrefix, id.bytes);
      var obj := Lookup(backend.objs, key);
      if obj.None? {
        return Failure(ObjNotFound([id]));
      }
      r := Success(ObjSpec.Deserialize(id, obj.value));
    }

    method FetchTypedObj(id: ObjId, objType: ObjType) returns (r: Result<Obj, PersistError>)
      ensures var key := DbKey(keyPrefix, id.bytes);
        r.Success? <==> key in backend.objs && backend.objs[key].objType == objType
      ensures r.Failure? ==> r.error == ObjNotFound([id])
      ensures r.Success? ==> r.value == ObjSpec.Deserialize(id, backend.objs[DbKey(keyPrefix, id.bytes)])
    {
      var fetched := FetchObj(id);
      if fetched.Failure? {
        return fetched;
      }
      if fetched.value.objType != objType {
        return Failure(ObjNotFound([id]));
      }
      r := fetched;
    }

    method FetchObjType(id: ObjId) returns (r: Result<ObjType, PersistError>)
      ensures r.Success? <==> DbKey(keyPrefix, id.bytes) in backend.objs
      ensures r.Failure? ==> r.error == ObjNotFound([id])
      ensures r.Success? ==> r.value == ObjSpec.Deserialize(id, backend.objs[DbKey(keyPrefix, id.bytes)]).objType
    {
      var fetched := FetchObj(id);
      if fetched.Failure? {
        return Failure(fetched.error);
      }
      r := Success(fetched.value.objType);
    }

    /** The first pass of fetchObjs: the database key of every non-null id, in order. */
    static method CollectObjKeys(prefix: Key, ids: seq<Option<ObjId>>) returns (keys: seq<Key>)
      ensures keys == ObjSpec.ObjKeys(prefix, ids)
    {
      keys := [];
      for i := 0 to |ids|
        invariant keys + ObjSpec.ObjKeys(prefix, ids[i..]) == ObjSpec.ObjKeys(prefix, ids)
      {
        assert ids[i..][1..] == ids[i + 1..];
        if ids[i].Some? {
          keys := keys + [DbKey(prefix, ids[i].value.bytes)];
        }
      }
      assert ids[|ids|..] == [];
    }

    /**
      The second pass of fetchObjs: walk the ids beside the multi-get results, fill the slot of
      every id whose object was found and list, in order, the ids whose object was not.
     */
    static method FillSlots(prefix: Key, objs: ObjSpec.ObjMap, ids: seq<Option<ObjId>>, keys: seq<Key>,
                            dbResult: seq<Option<StoredObj>>, res: array<Option<Obj>>)
      returns (notFound: seq<ObjId>)
      requires keys == ObjSpec.ObjKeys(prefix, ids) && dbResult == MultiGet(objs, keys)
      requires res.Length == |ids|
      requires forall j | 0 <= j < |ids| :: res[j].None?
      modifies res
      ensures notFound == ObjSpec.MissingIds(prefix, objs, ids)
      ensures forall j | 0 <= j < |ids| :: res[j] == ObjSpec.ObjSlot(prefix, objs, ids[j])
    {
      notFound := [];
      var ri := 0;
      for i := 0 to |ids|
        invariant ri <= |keys| && keys[ri..] == ObjSpec.ObjKeys(prefix, ids[i..])
        invariant notFound + ObjSpec.MissingIds(prefix, objs, ids[i..]) == ObjSpec.MissingIds(prefix, objs, ids)
        invariant forall j | 0 <= j < i :: res[j] == ObjSpec.ObjSlot(prefix, objs, ids[j])
        invariant forall j | i <= j < |ids| :: res[j].None?
      {
        assert ids[i..][1..] == ids[i + 1..];
        if ids[i].Some? {
          var id := ids[i].value;
          assert keys[ri..][1..] == keys[ri + 1..];
          var obj := dbResult[ri];
          ri := ri + 1;
          if obj.None? {
            notFound := notFound + [id];
          } else {
            res[i] := Some(ObjSpec.Deserialize(id, obj.value));
          }
        }
      }
      assert ids[|ids|..] == [];
      assert ObjSpec.MissingIds(prefix, objs, ids[|ids|..]) == [];
    }

    method FetchObjs(ids: seq<Option<ObjId>>) returns (r: Result<seq<Option<Obj>>, PersistError>)
      ensures r == ObjSpec.FetchObjs(keyPrefix, backend.objs, ids)
    {
      var objs := backend.objs;
      var res := new Option<Obj>[|ids|](_ => None);
      var keys := CollectObjKeys(keyPrefix, ids);
      if keys != [] {
        var dbResult := MultiGet(objs, keys);
        var notFound := FillSlots(keyPrefix, objs, ids, keys, dbResult, res);
        if notFound != [] {
          return Failure(ObjNotFound(notFound));
        }
      } else {
        ObjSpec.NoObjKeys(keyPrefix, ids);
        ObjSpec.MissingIdsNone(keyPrefix, objs, ids);
        assert forall j | 0 <= j < |ids| :: res[j] == ObjSpec.ObjSlot(keyPrefix, objs, ids[j]);
      }
      assert res[..] == seq(|ids|, j requires 0 <= j < |ids| => ObjSpec.ObjSlot(keyPrefix, objs, ids[j]));
      r := Success(res[..]);
    }

    method StoreObj(obj: Obj, ignoreSoftSizeRestrictions: bool) returns (r: Result<bool, PersistError>)
      modifies backend
      ensures ObjSpec.ObjStep(r, backend.objs)
        == ObjSpec.StoreObj(keyPrefix, old(backend.objs), obj, ignoreSoftSizeRestrictions, config, exceedsLimits)
      ensures backend.refs == old(backend.refs)
    {
      if obj.id.None? {
        return Failure(IllegalArgument);
      }
      var key := DbKey(keyPrefix, obj.id.value.bytes);
      var existing := Lookup(backend.objs, key);
      if existing.Some? {
        return Success(false);
      }
      var incrementalIndexSizeLimit :=
        if ignoreSoftSizeRestrictions then ObjSpec.IntegerMaxValue else config.incrementalIndexSizeLimit;
      var indexSizeLimit :=
        if ignoreSoftSizeRestrictions then ObjSpec.IntegerMaxValue else config.indexSegmentSizeLimit;
      var serialized := ObjSpec.Serialize(obj, incrementalIndexSizeLimit, indexSizeLimit, exceedsLimits);
      if serialized.Failure? {
        return Failure(serialized.error);
      }
      backend.objs := backend.objs[key := serialized.value];
      r := Success(true);
    }

    method StoreObjs(batch: seq<Option<Obj>>) returns (r: Result<seq<bool>, PersistError>)
      modifies backend
      ensures ObjSpec.ObjStep(r, backend.objs)
        == ObjSpec.StoreObjs(keyPrefix, old(backend.objs), batch, config, exceedsLimits)
      ensures backend.refs == old(backend.refs)
    {
      var res := new bool[|batch|](_ => false);
      for i := 0 to |batch|
        invariant ObjSpec.StoreObjs(keyPrefix, old(backend.objs), batch[..i], config, exceedsLimits)
          == ObjSpec.ObjStep(Success(res[..i]), backend.objs)
        invariant forall j | i <= j < |batch| :: !res[j]
        invariant backend.refs == old(backend.refs)
      {
        assert batch[..i + 1][..i] == batch[..i] && batch[..i + 1][i] == batch[i];
        if batch[i].Some? {
          var stored := StoreObj(batch[i].value, false);
          if stored.Failure? {
            ObjSpec.StoreObjsFailureSticks(keyPrefix, old(backend.objs), batch, i + 1, config, exceedsLimits);
            return Failure(stored.error);
          }
          res[i] := stored.value;
        }
        assert res[..i + 1] == res[..i] + [res[i]];
      }
      assert batch[..|batch|] == batch && res[..|batch|] == res[..];
      r := Success(res[..]);
    }

    method DeleteObj(id: ObjId)
      modifies backend
      ensures backend.objs == old(backend.objs) - {DbKey(keyPrefix, id.bytes)}
      ensures backend.refs == old(backend.refs)
    {
      backend.objs := backend.objs - {DbKey(keyPrefix, id.bytes)};
    }

    method DeleteObjs(ids: seq<ObjId>)
      modifies backend
      ensures backend.objs == old(backend.objs) - ObjSpec.IdKeys(keyPrefix, ids)
      ensures backend.refs == old(backend.refs)
    {
      for i := 0 to |ids|
        invariant backend.objs == old(backend.objs) - ObjSpec.IdKeys(keyPrefix, ids[..i])
        invariant backend.refs == old(backend.refs)
      {
        assert ObjSpec.IdKeys(keyPrefix, ids[..i + 1])
          == ObjSpec.IdKeys(keyPrefix, ids[..i]) + {DbKey(keyPrefix, ids[i].bytes)} by {
          assert forall j | 0 <= j < i :: ids[..i + 1][j] == ids[..i][j];
        }
        DeleteObj(ids[i]);
      }
      assert ids[..|ids|] == ids;
    }

    method UpsertObj(obj: Obj) returns (r: Result<(), PersistError>)
      modifies backend
      ensures ObjSpec.ObjStep(r, backend.objs) == ObjSpec.UpsertObj(keyPrefix, old(backend.objs), obj, config, exceedsLimits)
      ensures backend.refs == old(backend.refs)
    {
      if obj.id.None? {
        return Failure(IllegalArgument);
      }
      var key := DbKey(keyPrefix, obj.id.value.bytes);
      var serialized := ObjSpec.Serialize(obj, config.incrementalIndexSizeLimit, config.indexSegmentSizeLimit, exceedsLimits);
      if serialized.Failure? {
        return Failure(serialized.error);
      }
      backend.objs := backend.objs[key := serialized.value];
      r := Success(());
    }

    method UpsertObjs(batch: seq<Obj>) returns (r: Result<(), PersistError>)
      modifies backend
      ensures ObjSpec.ObjStep(r, backend.objs)
        == ObjSpec.UpsertObjs(keyPrefix, old(backend.objs), batch, config, exceedsLimits)
      ensures backend.refs == old(backend.refs)
    {
      for i := 0 to |batch|
        invariant ObjSpec.UpsertObjs(keyPrefix, old(backend.objs), batch[..i], config, exceedsLimits)
          == ObjSpec.ObjStep(Success(()), backend.objs)
        invariant backend.refs == old(backend.refs)
      {
        assert batch[..i + 1][..i] == batch[..i];
        var upserted := UpsertObj(batch[i]);
        if upserted.Failure? {
          ObjSpec.UpsertObjsFailureSticks(keyPrefix, old(backend.objs), batch, i + 1, config, exceedsLimits);
          return upserted;
        }
      }
      assert batch[..|batch|] == batch;
      r := Success(());
    }

    /** The keys of a column family that carry this repository's prefix, as erase collects them. */
    method CollectPrefixed<V>(cf: map<Key, V>) returns (deletes: seq<Key>)
      ensures forall k :: k in deletes <==> k in cf && HasPrefix(k, keyPrefix)
    {
      deletes := [];
      var rest := cf.Keys;
      while rest != {}
        invariant rest <= cf.Keys
        invariant forall k :: k in deletes <==> k in cf && k !in rest && HasPrefix(k, keyPrefix)
        decreases rest
      {
        var k :| k in rest;
        if HasPrefix(k, keyPrefix) {
          deletes := deletes + [k];
        }
        rest := rest - {k};
      }
    }

    /** Removes every key of this repository from both column families; other keys stay. */
    method Erase()
      modifies backend
      ensures backend.refs == WithoutPrefix(old(backend.refs), keyPrefix)
      ensures backend.objs == WithoutPrefix(old(backend.objs), keyPrefix)
    {
      var refDeletes := CollectPrefixed(backend.refs);
      for i := 0 to |refDeletes|
        invariant backend.objs == old(backend.objs)
        invariant forall k :: k in backend.refs <==> k in old(backend.refs) && k !in refDeletes[..i]
        invariant forall k | k in backend.refs :: backend.refs[k] == old(backend.refs)[k]
      {
        assert refDeletes[..i + 1] == refDeletes[..i] + [refDeletes[i]];
        backend.refs := backend.refs - {refDeletes[i]};
      }
      assert refDeletes[..|refDeletes|] == refDeletes;
      var objDeletes := CollectPrefixed(backend.objs);
      for i := 0 to |objDeletes|
        invariant backend.refs == WithoutPrefix(old(backend.refs), keyPrefix)
        invariant forall k :: k in backend.objs <==> k in old(backend.objs) && k !in objDeletes[..i]
        invariant forall k | k in backend.objs :: backend.objs[k] == old(backend.objs)[k]
      {
        assert objDeletes[..i + 1] == objDeletes[..i] + [objDeletes[i]];
        backend.objs := backend.objs - {objDeletes[i]};
      }
      assert objDeletes[..|objDeletes|] == objDeletes;
    }

    /**
      Opens a scan over this repository's objects whose type is in `returnedObjTypes`;
      `cursorKeys` is the sequence of keys the native cursor visits.
     */
    method ScanAllObjects(returnedObjTypes: set<ObjType>, cursorKeys: seq<Key>) returns (it: ScanAllObjectsIterator)
      requires forall k :: k in cursorKeys <==> k in backend.objs
      requires ScanSpec.KeysInOrder(cursorKeys)
      ensures fresh(it) && it.Valid() && it.backend == backend
      ensures it.Pending() == ScanSpec.Emit(ScanSpec.ScanSource(cursorKeys, backend.objs, keyPrefix, returnedObjTypes), 0, None)
      ensures forall k | k in backend.objs && HasPrefix(k, keyPrefix) && backend.objs[k].objType in returnedObjTypes ::
        ObjSpec.Deserialize(ObjId(StripPrefix(keyPrefix, k)), backend.objs[k]) in it.Pending()
      ensures ScanSpec.NoRepeatedIds(it.Pending())
    {
      it := new ScanAllObjectsIterator(backend, keyPrefix, returnedObjTypes, cursorKeys);
      var src := ScanSpec.ScanSource(cursorKeys, backend.objs, keyPrefix, returnedObjTypes);
      ScanSpec.ScanComplete(src);
      ScanSpec.InOrderIsGrouped(cursorKeys);
      ScanSpec.EmitNoRepeats(src, 0, None);
    }
  }

  /**
    The cursor-driven iterator behind scanAllObjects, with the validity of the cursor tested
    again after it is advanced.
   */
  class ScanAllObjectsIterator {
    const backend: Backend
    const keyPrefix: Key
    const returnedObjTypes: set<ObjType>
    /** The keys the native cursor visits, in its order. */
    const cursorKeys: seq<Key>
    /** The cursor position. */
    var pos: nat
    var first: bool
    var lastKey: Option<Key>

    ghost predicate Valid()
      reads this
    {
      pos <= |cursorKeys| && (first ==> pos == 0 && lastKey == None)
    }

    ghost function Source(): ScanSpec.ScanSource
      reads this, backend
    {
      ScanSpec.ScanSource(cursorKeys, backend.objs, keyPrefix, returnedObjTypes)
    }

    /** The objects the remaining calls will yield. */
    ghost function Pending(): seq<Obj>
      reads this, backend
      requires Valid()
    {
      ScanSpec.Emit(Source(), if first then pos else pos + 1, lastKey)
    }

    constructor (backend: Backend, keyPrefix: Key, returnedObjTypes: set<ObjType>, cursorKeys: seq<Key>)
      ensures Valid()
      ensures this.backend == backend && this.keyPrefix == keyPrefix
      ensures this.returnedObjTypes == returnedObjTypes && this.cursorKeys == cursorKeys
      ensures Pending() == ScanSpec.Emit(ScanSpec.ScanSource(cursorKeys, backend.objs, keyPrefix, returnedObjTypes), 0, None)
    {
      this.backend := backend;
      this.keyPrefix := keyPrefix;
      this.returnedObjTypes := returnedObjTypes;
      this.cursorKeys := cursorKeys;
      pos := 0;
      first := true;
      lastKey := None;
    }

    /** The next object of the scan, or None at the end of the data. */
    method ComputeNext() returns (r: Option<Obj>)
      requires Valid()
      modifies this
      ensures Valid()
      ensures r.None? ==> old(Pending()) == [] && Pending() == []
      ensures r.Some? ==> old(Pending()) == [r.value] + Pending()
    {
      while true
        invariant Valid()
        invariant Pending() == old(Pending())
        decreases |cursorKeys| - pos + (if first then 1 else 0)
      {
        if pos >= |cursorKeys| {
          return None;
        }
        if first {
          first := false;
        } else {
          pos := pos + 1;
          if pos >= |cursorKeys| {
            return None;
          }
        }
        var k := cursorKeys[pos];
        if lastKey == Some(k) {
          continue;
        }
        lastKey := Some(k);
        if !HasPrefix(k, keyPrefix) {
          continue;
        }
        var stored := Lookup(backend.objs, k);
        if stored.None? {
          continue;
        }
        var id := ObjId(StripPrefix(keyPrefix, k));
        var o := ObjSpec.Deserialize(id, stored.value);
        if o.objType in returnedObjTypes {
          return Some(o);
        }
      }
    }
  }
}
