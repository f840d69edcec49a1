/**
  Key layout of the embedded key-value backend. Every reference and every object of one
  repository is stored under `repositoryId + ':'` followed by the reference name or the
  object id, so that several repositories can share one database.
 */
module Keys {

  newtype byte = x: int | 0 <= x < 256

  /** A raw database key: a byte string. */
  type Key = seq<byte>

  /** The byte ':' that closes a repository prefix. */
  const Colon: byte := 58

  /** The prefix of every key of the repository `repositoryId` (given as its UTF-8 bytes). */
  function KeyPrefix(repositoryId: seq<byte>): (p: Key)
    ensures |p| == |repositoryId| + 1
    ensures p[..|repositoryId|] == repositoryId && p[|repositoryId|] == Colon
  {
    repositoryId + [Colon]
  }

  predicate HasPrefix(k: Key, prefix: Key) {
    |prefix| <= |k| && k[..|prefix|] == prefix
  }

  /** The database key of a logical key (a reference name or object id) of one repository. */
  function DbKey(prefix: Key, key: Key): (k: Key)
    ensures HasPrefix(k, prefix)
    ensures |k| == |prefix| + |key| && k[|prefix|..] == key
  {
    prefix + key
  }

  /** The logical key inside a database key of this repository. */
  function StripPrefix(prefix: Key, k: Key): (key: Key)
    requires HasPrefix(k, prefix)
    ensures |key| == |k| - |prefix|
    ensures prefix + key == k
  {
    k[|prefix|..]
  }

  /** Stripping the prefix undoes DbKey. */
  lemma DbKeyRoundTrip(prefix: Key, key: Key)
    ensures StripPrefix(prefix, DbKey(prefix, key)) == key
  {
  }

  /** Every key that carries the prefix is the DbKey of its stripped form. */
  lemma StripPrefixRoundTrip(prefix: Key, k: Key)
    requires HasPrefix(k, prefix)
    ensures DbKey(prefix, StripPrefix(prefix, k)) == k
  {
  }

  /** Distinct logical keys of one repository never share a database key. */
  lemma DbKeyInjective(prefix: Key, a: Key, b: Key)
    ensures DbKey(prefix, a) == DbKey(prefix, b) <==> a == b
  {
    if DbKey(prefix, a) == DbKey(prefix, b) {
      assert a == DbKey(prefix, a)[|prefix|..];
    }
  }

  /** `m` with every key of the repository with this prefix removed. */
  function WithoutPrefix<V>(m: map<Key, V>, prefix: Key): (r: map<Key, V>)
    ensures forall k :: k in r <==> k in m && !HasPrefix(k, prefix)
    ensures forall k | k in r :: r[k] == m[k]
  {
    map k | k in m && !HasPrefix(k, prefix) :: m[k]
  }
}
