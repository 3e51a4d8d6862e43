/** The part of the key-value store the student API uses: a keyspace of
    hashes (field maps), read with HGETALL, merged into with HSET, removed
    with DEL and enumerated with KEYS on a literal prefix followed by `*`. */
module Redis {

  /** A hash: field name to value. */
  type Hash = map<string, string>

  /** The whole keyspace: key to hash. */
  type Keyspace = map<string, Hash>

  /** The store never keeps a key whose hash has no fields: removing the last
      field removes the key, and HSET refuses an empty field list. */
  ghost predicate NoEmptyHash(db: Keyspace) {
    forall k :: k in db ==> db[k] != map[]
  }

  /** HGETALL: the hash under `key`, or no fields at all when the key is absent. */
  function HGetAll(db: Keyspace, key: string): (h: Hash)
    ensures NoEmptyHash(db) ==> (h == map[] <==> key !in db)
  {
    if key in db then db[key] else map[]
  }

  /** HSET key f1 v1 f2 v2 ...: merge the given fields into the hash under
      `key`, creating it when absent; fields not named keep their values. */
  function HSet(db: Keyspace, key: string, fields: Hash): (r: Keyspace)
    requires fields != map[]
    ensures NoEmptyHash(db) ==> NoEmptyHash(r)
    ensures r.Keys == db.Keys + {key}
    ensures forall k :: k in db && k != key ==> r[k] == db[k]
    ensures r[key].Keys == HGetAll(db, key).Keys + fields.Keys
    ensures forall f :: f in fields ==> r[key][f] == fields[f]
    ensures forall f :: f in HGetAll(db, key) && f !in fields ==> r[key][f] == HGetAll(db, key)[f]
  {
    db[key := HGetAll(db, key) + fields]
  }

  /** DEL key: remove the key, whether or not it was there. */
  function Del(db: Keyspace, key: string): (r: Keyspace)
    ensures NoEmptyHash(db) ==> NoEmptyHash(r)
    ensures key !in r
    ensures forall k :: k != key ==> (k in r <==> k in db)
    ensures forall k :: k in r ==> r[k] == db[k]
  {
    db - {key}
  }

  /** The keys matched by the pattern `prefix*`, where `prefix` holds no
      pattern metacharacter. */
  function KeysWithPrefix(db: Keyspace, prefix: string): set<string> {
    set k | k in db && prefix <= k
  }

  /** Writing the same fields twice leaves the store as writing them once. */
  lemma HSetIdempotent(db: Keyspace, key: string, fields: Hash)
    requires fields != map[]
    ensures HSet(HSet(db, key, fields), key, fields) == HSet(db, key, fields)
  {
    var once := HSet(db, key, fields);
    assert HGetAll(once, key) + fields == HGetAll(once, key);
  }

  /** A merge whose fields a later merge all covers changes nothing. */
  lemma MergeShadowed(h: Hash, first: Hash, second: Hash)
    requires first.Keys <= second.Keys
    ensures h + first + second == h + second
  {
  }

  /** A later write that covers every field of an earlier one to the same key
      makes the earlier write invisible. */
  lemma HSetShadowed(db: Keyspace, key: string, first: Hash, second: Hash)
    requires first != map[] && second != map[]
    requires first.Keys <= second.Keys
    ensures HSet(HSet(db, key, first), key, second) == HSet(db, key, second)
  {
    MergeShadowed(HGetAll(db, key), first, second);
  }

  /** KEYS after an HSET: the written key joins the matches when it has the prefix. */
  lemma KeysAfterHSet(db: Keyspace, key: string, fields: Hash, prefix: string)
    requires fields != map[]
    ensures KeysWithPrefix(HSet(db, key, fields), prefix)
            == KeysWithPrefix(db, prefix) + (if prefix <= key then {key} else {})
  {
  }

  /** KEYS after a DEL: the deleted key leaves the matches, nothing else does. */
  lemma KeysAfterDel(db: Keyspace, key: string, prefix: string)
    ensures KeysWithPrefix(Del(db, key), prefix) == KeysWithPrefix(db, prefix) - {key}
  {
  }

  /** What HGETALL sees after an HSET: the merge under the written key, the
      old hash under any other. */
  lemma HGetAllAfterHSet(db: Keyspace, written: string, fields: Hash, key: string)
    requires fields != map[]
    ensures HGetAll(HSet(db, written, fields), key)
            == if key == written then HGetAll(db, key) + fields else HGetAll(db, key)
  {
  }

  /** Deleting twice has the same effect as deleting once. */
  lemma DelIdempotent(db: Keyspace, key: string)
    ensures Del(Del(db, key), key) == Del(db, key)
  {
  }
}
