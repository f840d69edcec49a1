/**
  Values of the object/reference store: object ids, objects, references and the errors the
  store reports.
 */
module Types {
  import opened Keys

  datatype Option<+T> = None | Some(value: T)

  datatype Result<+T, +E> = Success(value: T) | Failure(error: E)

  /** A reference name, as the UTF-8 bytes it is stored under. */
  type RefName = seq<byte>

  /** The content-derived identifier of an object, as its bytes. */
  datatype ObjId = ObjId(bytes: seq<byte>)

  /** The kind of an object (commit, content value, index segment, ...), compared by name. */
  datatype ObjType = ObjType(name: string)

  /**
    An object as callers hand it to the store. `id` is optional because the store checks
    that an object to be stored has one; `payload` stands for everything else it holds.
   */
  datatype Obj = Obj(id: Option<ObjId>, objType: ObjType, payload: seq<byte>)

  /** What the objects column family holds under an object's key: its serialized form. */
  datatype StoredObj = StoredObj(objType: ObjType, payload: seq<byte>)

  /** A named, mutable pointer to a commit, with its soft-delete flag. */
  datatype Reference = Reference(name: RefName, pointer: ObjId, deleted: bool)

  /** Effective size limits of the store configuration. */
  datatype StoreConfig = StoreConfig(
    repositoryId: seq<byte>,
    incrementalIndexSizeLimit: int,
    indexSegmentSizeLimit: int)

  /** The store's failures; each reference failure carries the reference it reports. */
  datatype PersistError =
    | RefNotFound(reference: Reference)
    | RefAlreadyExists(existing: Reference)
    | RefConditionFailed(actual: Reference)
    | ObjNotFound(ids: seq<ObjId>)
    | ObjTooLarge
    | IllegalArgument

  /** A point read: the value under `k`, or None when the key is absent. */
  function Lookup<V>(m: map<Key, V>, k: Key): (r: Option<V>)
    ensures r.Some? <==> k in m
    ensures r.Some? ==> r.value == m[k]
  {
    if k in m then Some(m[k]) else None
  }

  /** A batched read: one Lookup per key, in the order of the keys. */
  function MultiGet<V>(m: map<Key, V>, keys: seq<Key>): (vals: seq<Option<V>>)
    ensures |vals| == |keys|
    ensures forall i | 0 <= i < |keys| :: vals[i] == Lookup(m, keys[i])
  {
    seq(|keys|, i requires 0 <= i < |keys| => Lookup(m, keys[i]))
  }
}
