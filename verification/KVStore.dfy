/**
 The secret store over the byte store: records are JSON, sealed under a key derived from their store key,
 and written one transaction at a time. The decoded records are what KVRecords reasons about.
 */
module KVStore {
  import opened Wrappers
  import opened Json
  import opened Order
  import opened Database
  import opened Crypto
  import opened KVLayout
  import opened KVRecords

  /** Everything needed to read a record. */
  datatype Env = Env(
    prims: Primitives,
    json: JsonView,
    metaCodec: Codec<KVMeta>,
    entryCodec: Codec<KVEntry>)
  {
    ghost predicate Lawful() {
      && prims.OpensSealed()
      && metaCodec.ReadsBack(m => Some(StoredMeta(json, m)))
      && entryCodec.ReadsBack(e => StoredEntry(json, e))
    }
  }

  function DecodeMeta(env: Env, key: string, data: bytes): Result<KVMeta> {
    match DecryptFrame(env.prims, env.prims.derive(key), data)
    case Err(e) => Err(e)
    case Ok(plain) =>
      match env.metaCodec.unmarshal(plain)
      case None => Err(UnmarshalFailed)
      case Some(meta) => Ok(meta)
  }

  function DecodeEntry(env: Env, key: string, data: bytes): Result<KVEntry> {
    match DecryptFrame(env.prims, env.prims.derive(key), data)
    case Err(e) => Err(e)
    case Ok(plain) =>
      match env.entryCodec.unmarshal(plain)
      case None => Err(UnmarshalFailed)
      case Some(entry) => Ok(entry)
  }

  /** What getMeta reads, before it is known that the store is in order. */
  function FetchMeta(env: Env, store: map<string, bytes>, path: string): Result<KVMeta> {
    if MetaKey(path) in store then DecodeMeta(env, MetaKey(path), store[MetaKey(path)]) else Err(NotFound)
  }

  function FetchEntry(env: Env, store: map<string, bytes>, path: string, version: nat): Result<KVEntry> {
    var key := VersionKey(path, version);
    if key in store then DecodeEntry(env, key, store[key]) else Err(NotFound)
  }

  /** The store has a record under the key of a slot iff the records have it, and then it decodes to it. */
  ghost predicate SlotHolds(env: Env, store: map<string, bytes>, r: Records, slot: Slot) {
    match slot
    case MetaSlot(p) =>
      && (p in r.metas <==> KeyOf(slot) in store)
      && (p in r.metas ==> DecodeMeta(env, KeyOf(slot), store[KeyOf(slot)]) == Ok(r.metas[p]))
    case VersionSlot(p, v) =>
      && ((p, v) in r.versions <==> KeyOf(slot) in store)
      && ((p, v) in r.versions ==> DecodeEntry(env, KeyOf(slot), store[KeyOf(slot)]) == Ok(r.versions[(p, v)]))
  }

  /** The byte store holds exactly these records, each under its own key, and nothing else below the root. */
  ghost predicate Represents(env: Env, store: map<string, bytes>, r: Records) {
    && (forall slot :: SlotHolds(env, store, r, slot))
    && (forall k :: k in store && KV_ROOT <= k ==> ParseKey(k).Some?)
  }

  lemma {:induction false} FetchesRecord(env: Env, store: map<string, bytes>, r: Records, path: string, version: nat)
    requires Represents(env, store, r)
    ensures FetchMeta(env, store, path) == if path in r.metas then Ok(r.metas[path]) else Err(NotFound)
    ensures FetchEntry(env, store, path, version) == ReadVersion(r, path, version)
  {
    assert SlotHolds(env, store, r, MetaSlot(path));
    assert SlotHolds(env, store, r, VersionSlot(path, version));
  }

  /** Two stores and two records that differ in one slot only, and agree there. */
  lemma {:induction false} SlotWritten(env: Env, store: map<string, bytes>, r: Records, slot: Slot,
                                       store': map<string, bytes>, r': Records)
    requires Represents(env, store, r) && SlotHolds(env, store', r', slot)
    requires forall k :: k != KeyOf(slot) ==> (k in store <==> k in store') && (k in store ==> store[k] == store'[k])
    requires slot.MetaSlot? ==> r'.versions == r.versions && forall p :: p != slot.path ==>
               (p in r.metas <==> p in r'.metas) && (p in r.metas ==> r.metas[p] == r'.metas[p])
    requires slot.VersionSlot? ==> r'.metas == r.metas && forall ref :: ref != (slot.path, slot.version) ==>
               (ref in r.versions <==> ref in r'.versions) &&
                 (ref in r.versions ==> r.versions[ref] == r'.versions[ref])
    ensures Represents(env, store', r')
  {
    forall other ensures SlotHolds(env, store', r', other) {
      if other != slot {
        if KeyOf(other) == KeyOf(slot) { LayoutInjective(other, slot); }
        assert SlotHolds(env, store, r, other);
      }
    }
    ParseKeyOf(slot);
  }

  /** Writing the bytes of one metadata record changes that record and no other. */
  lemma {:induction false} MetaWritten(env: Env, store: map<string, bytes>, r: Records, path: string, data: bytes,
                                       stored: KVMeta)
    requires Represents(env, store, r)
    requires DecodeMeta(env, MetaKey(path), data) == Ok(stored)
    ensures Represents(env, store[MetaKey(path) := data], r.(metas := r.metas[path := stored]))
  {
    SlotWritten(env, store, r, MetaSlot(path), store[MetaKey(path) := data], r.(metas := r.metas[path := stored]));
  }

  lemma {:induction false} VersionWritten(env: Env, store: map<string, bytes>, r: Records, path: string, version: nat,
                                          data: bytes, stored: KVEntry)
    requires Represents(env, store, r)
    requires DecodeEntry(env, VersionKey(path, version), data) == Ok(stored)
    ensures Represents(env, store[VersionKey(path, version) := data],
        r.(versions := r.versions[(path, version) := stored]))
  {
    SlotWritten(env, store, r, VersionSlot(path, version), store[VersionKey(path, version) := data],
                r.(versions := r.versions[(path, version) := stored]));
  }

  lemma {:induction false} VersionDropped(env: Env, store: map<string, bytes>, r: Records, path: string, version: nat)
    requires Represents(env, store, r)
    ensures Represents(env, store - {VersionKey(path, version)}, DropVersion(r, path, version))
  {
    SlotWritten(env, store, r, VersionSlot(path, version), store - {VersionKey(path, version)},
                DropVersion(r, path, version));
  }

  /** What the other engines do to their part of the store does not matter. */
  lemma {:induction false} OnlyOwnKeysCount(env: Env, store: map<string, bytes>, store': map<string, bytes>, r: Records)
    requires Represents(env, store, r) && SameBelow(store, store', KV_ROOT)
    ensures Represents(env, store', r)
  {
    forall slot ensures SlotHolds(env, store', r, slot) {
      KeyShape(slot);
      assert SlotHolds(env, store, r, slot);
    }
  }

  lemma {:induction false} EmptyRepresents(env: Env, store: map<string, bytes>)
    requires forall k :: k in store ==> !(KV_ROOT <= k)
    ensures Represents(env, store, EMPTY)
  {
    forall slot ensures SlotHolds(env, store, EMPTY, slot) { KeyShape(slot); }
  }

  /** `picks` are ascending positions of `all`. */
  ghost predicate Ascends(picks: seq<nat>, bound: nat) {
    && (forall i :: 0 <= i < |picks| ==> picks[i] < bound)
    && (forall i, k :: 0 <= i < k < |picks| ==> picks[i] < picks[k])
  }

  ghost predicate IsPickOf(part: seq<KVEntry>, all: seq<KVEntry>, picks: seq<nat>) {
    && |picks| == |part| && Ascends(picks, |all|)
    && (forall i :: 0 <= i < |part| ==> part[i] == all[picks[i]])
  }

  /** `part` is `all` with some entries left out: the order is kept, and nothing comes twice. */
  ghost predicate IsSelection(part: seq<KVEntry>, all: seq<KVEntry>) {
    exists picks: seq<nat> :: IsPickOf(part, all, picks)
  }

  /** The next entry is taken or left out. */
  lemma {:induction false} SelectionGrows(part: seq<KVEntry>, all: seq<KVEntry>, e: KVEntry)
    requires IsSelection(part, all)
    ensures IsSelection(part, all + [e]) && IsSelection(part + [e], all + [e])
  {
    var picks: seq<nat> :| IsPickOf(part, all, picks);
    assert IsPickOf(part, all + [e], picks);
    assert IsPickOf(part + [e], all + [e], picks + [|all|]);
  }

  /** One round of the loop of Versions. */
  lemma {:induction false} ListedStep(r: Records, path: string, v: nat, current: nat, done: seq<KVEntry>)
    requires v <= current
    ensures var rest := ListedFrom(r, path, v + 1, current);
            match ReadVersion(r, path, v)
            case Err(_) => ListedFrom(r, path, v, current) == rest
            case Ok(e) => done + ListedFrom(r, path, v, current) == (done + [e.(value := [])]) + rest
  {
  }

  class KVStore {
    const db: DB
    const crypto: Crypto
    const env: Env
    ghost var records: Records

    ghost predicate Valid()
      reads this, db
    {
      crypto.prims == env.prims && env.Lawful() && Represents(env, db.store, records) && Labelled(records, env.json)
    }

    ghost predicate Reliable() {
      db.reliable && crypto.reliable
    }

    /** Opens a store that may hold secrets already, for example after a restart. */
    constructor (db: DB, crypto: Crypto, env: Env, ghost stored: Records)
      requires crypto.prims == env.prims && env.Lawful()
      requires Represents(env, db.store, stored) && Labelled(stored, env.json)
      ensures Valid() && records == stored && this.db == db && this.crypto == crypto && this.env == env
    {
      this.db := db;
      this.crypto := crypto;
      this.env := env;
      records := stored;
    }

    method FetchMetaBytes(path: string) returns (r: Result<KVMeta>)
      requires crypto.prims == env.prims
      ensures r == FetchMeta(env, db.store, path) || (!Reliable() && r == Err(StorageFailure))
    {
      var key := "secrets/kv/" + path + "/__meta";
      var data := db.Get(key);
      if data.Err? {
        return Err(data.error);
      }
      var plain := crypto.Decrypt(key, data.value);
      if plain.Err? {
        return Err(plain.error);
      }
      match env.metaCodec.unmarshal(plain.value)
      case None => return Err(UnmarshalFailed);
      case Some(meta) => return Ok(meta);
    }

    /** getMeta: the metadata record of the path. */
    method GetMeta(path: string) returns (r: Result<KVMeta>)
      requires Valid()
      ensures r == (if path in records.metas then Ok(records.metas[path])
          else Err(NotFound)) || (!Reliable() && r == Err(StorageFailure))
    {
      r := FetchMetaBytes(path);
      FetchesRecord(env, db.store, records, path, 0);
    }

    /** getVersion: one version record of the path. */
    method GetVersion(path: string, version: nat) returns (r: Result<KVEntry>)
      requires Valid()
      ensures r == ReadVersion(records, path, version) || (!Reliable() && r == Err(StorageFailure))
    {
      r := FetchVersionBytes(path, version);
      FetchesRecord(env, db.store, records, path, version);
    }

    method WriteMeta(meta: KVMeta) returns (err: Option<Error>)
      requires Valid()
      modifies this, db
      ensures Valid() && db.StaysBelow(KV_ROOT) && db.expiring <= old(db.expiring)
      ensures err.None? ==> records == PutMeta(old(records), env.json, meta)
      ensures err.Some? ==> records == old(records) && !Reliable()
    {
      var data := env.metaCodec.marshal(meta);
      if data.None? {
        return Some(MarshalFailed);
      }
      var key := "secrets/kv/" + meta.path + "/__meta";
      var enc := crypto.Encrypt(key, data.value);
      if enc.Err? {
        return Some(enc.error);
      }
      FrameOpens(env.prims, env.prims.derive(key), enc.value, data.value);
      MetaWritten(env, db.store, records, meta.path, enc.value, StoredMeta(env.json, meta));
      assert KV_ROOT <= key;
      err := db.Set(key, enc.value);
      if err.None? {
        records := PutMeta(records, env.json, meta);
      }
    }

    method FetchVersionBytes(path: string, version: nat) returns (r: Result<KVEntry>)
      requires crypto.prims == env.prims
      ensures r == FetchEntry(env, db.store, path, version) || (!Reliable() && r == Err(StorageFailure))
    {
      var key := VersionKey(path, version);
      var data := db.Get(key);
      if data.Err? {
        return Err(data.error);
      }
      var plain := crypto.Decrypt(key, data.value);
      if plain.Err? {
        return Err(plain.error);
      }
      match env.entryCodec.unmarshal(plain.value)
      case None => return Err(UnmarshalFailed);
      case Some(entry) => return Ok(entry);
    }

    method WriteVersion(entry: KVEntry) returns (err: Option<Error>)
      requires Valid()
      modifies this, db
      ensures Valid() && db.StaysBelow(KV_ROOT) && db.expiring <= old(db.expiring)
      ensures err.None? ==> StoredEntry(env.json, entry).Some? && records == PutVersion(old(records), env.json, entry)
      ensures err.Some? ==> records == old(records)
      ensures err.Some? && Reliable() ==> StoredEntry(env.json, entry).None? && err.value == MarshalFailed
    {
      var key := VersionKey(entry.path, entry.version);
      var data := env.entryCodec.marshal(entry);
      if data.None? {
        return Some(MarshalFailed);
      }
      var enc := crypto.Encrypt(key, data.value);
      if enc.Err? {
        return Some(enc.error);
      }
      FrameOpens(env.prims, env.prims.derive(key), enc.value, data.value);
      VersionWritten(env, db.store, records, entry.path, entry.version, enc.value, StoredEntry(env.json, entry).value);
      assert KV_ROOT <= key;
      err := db.Set(key, enc.value);
      if err.None? {
        records := PutVersion(records, env.json, entry);
      }
    }

    method DeleteVersion(path: string, version: nat) returns (err: Option<Error>)
      requires Valid()
      modifies this, db
      ensures Valid() && db.StaysBelow(KV_ROOT) && db.expiring <= old(db.expiring)
      ensures err.None? ==> records == DropVersion(old(records), path, version)
      ensures err.Some? ==> records == old(records) && !Reliable()
    {
      VersionDropped(env, db.store, records, path, version);
      assert KV_ROOT <= VersionKey(path, version);
      err := db.Delete(VersionKey(path, version));
      if err.None? {
        records := DropVersion(records, path, version);
      }
    }

    /** Get: two reads, metadata first. */
    method Get(path: string, version: int) returns (r: Result<KVEntry>)
      requires Valid()
      ensures r == GetSecret(records, path, version) || (!Reliable() && r == Err(StorageFailure))
    {
      var meta := GetMeta(path);
      if meta.Err? {
        return Err(meta.error);
      }
      if meta.value.deletedAt.Some? {
        return Err(SecretDeleted);
      }
      var v := version;
      if v == 0 {
        v := meta.value.currentVersion;
      }
      if v < 1 || v > meta.value.currentVersion {
        return Err(VersionNotFound);
      }
      r := GetVersion(path, v);
    }

    /** Set: write the version, then the metadata, then prune; the outcome of pruning is ignored. */
    method Set(path: string, value: JsonValue, now: Time) returns (r: Result<KVEntry>)
      requires Valid()
      modifies this, db
      ensures Valid() && db.StaysBelow(KV_ROOT) && db.expiring <= old(db.expiring)
      ensures SetOutcome(old(records), env.json, path, value, now, records, r)
      ensures Reliable() ==> (records, r) == SetSecret(old(records), env.json, path, value, now)
    {
      var meta: KVMeta;
      var got := GetMeta(path);
      if got.Err? && got.error == NotFound {
        meta := KVMeta(path, 0, None);
      } else if got.Err? {
        return Err(got.error);
      } else {
        meta := got.value;
      }
      meta := meta.(deletedAt := None);
      meta := meta.(currentVersion := meta.currentVersion + 1);
      var entry := KVEntry(path, meta.currentVersion, value, now);
      assert meta == NextMeta(records, path) && entry == NextEntry(records, path, value, now);
      var err := WriteVersion(entry);
      if err.Some? {
        return Err(err.value);
      }
      err := WriteMeta(meta);
      if err.Some? {
        return Err(err.value);
      }
      if meta.currentVersion > MAX_VERSIONS {
        var oldest := meta.currentVersion - MAX_VERSIONS;
        var _ := DeleteVersion(path, oldest);
      }
      return Ok(entry);
    }

    /** Delete marks the metadata; the versions stay. */
    method Delete(path: string, now: Time) returns (err: Option<Error>)
      requires Valid()
      modifies this, db
      ensures Valid() && db.StaysBelow(KV_ROOT) && db.expiring <= old(db.expiring)
      ensures DeleteOutcome(old(records), env.json, path, now, records, err)
      ensures Reliable() ==> (records, err) == DeleteSecret(old(records), env.json, path, now)
    {
      var meta := GetMeta(path);
      if meta.Err? {
        return Some(meta.error);
      }
      err := WriteMeta(meta.value.(deletedAt := Some(now)));
    }

    /** Versions: the retained version records in ascending order; a read that fails skips its version. */
    method Versions(path: string) returns (r: Result<seq<KVEntry>>)
      requires Valid()
      ensures Reliable() ==> r == ListVersions(records, path)
      ensures r.Ok? ==> ListVersions(records, path).Ok? && IsSelection(r.value, ListVersions(records, path).value)
      ensures r.Err? && Reliable() ==> r.error == NotFound
    {
      var meta := GetMeta(path);
      if meta.Err? {
        return Err(meta.error);
      }
      var current := meta.value.currentVersion;
      var versions: seq<KVEntry> := [];
      var first := current - MAX_VERSIONS + 1;
      if first < 1 {
        first := 1;
      }
      var v: nat := first;
      ghost var all := ListedFrom(records, path, first, current);
      ghost var done: seq<KVEntry> := [];
      assert IsPickOf(versions, done, []);
      while v <= current
        invariant first <= v <= current + 1
        invariant done + ListedFrom(records, path, v, current) == all
        invariant Reliable() ==> versions == done
        invariant IsSelection(versions, done)
        decreases current + 1 - v
      {
        var entry := GetVersion(path, v);
        ListedStep(records, path, v, current, done);
        if ReadVersion(records, path, v).Ok? {
          ghost var next := ReadVersion(records, path, v).value.(value := []);
          SelectionGrows(versions, done, next);
          done := done + [next];
        }
        if entry.Ok? {
          versions := versions + [entry.value.(value := [])];
        }
        v := v + 1;
      }
      assert done + ListedFrom(records, path, v, current) == done;
      return Ok(versions);
    }

    /** Rollback: a Get followed by a Set of what it returned. */
    method Rollback(path: string, version: int, now: Time) returns (r: Result<KVEntry>)
      requires Valid()
      modifies this, db
      ensures Valid() && db.StaysBelow(KV_ROOT) && db.expiring <= old(db.expiring)
      ensures r.Ok? || records != old(records) ==> GetSecret(old(records), path, version).Ok?
      ensures RollbackOutcome(old(records), env.json, path, version, now, records, r)
      ensures Reliable() ==> (records, r) == RollbackSecret(old(records), env.json, path, version, now)
    {
      var got := Get(path, version);
      if got.Err? {
        return Err(got.error);
      }
      r := Set(path, got.value.value, now);
    }

    /** List: the one-level children of the directory, each once, in byte order. */
    method List(prefix: string) returns (r: Result<seq<string>>)
      requires Valid()
      ensures r.Ok? ==> Enumerates(r.value, ChildrenOf(db.store.Keys, Directory(KV_ROOT + prefix)))
      ensures r.Ok? ==> InByteOrder(r.value)
      ensures r.Err? ==> !Reliable() && r.error == StorageFailure
    {
      r := db.ListDirect("secrets/kv/" + prefix);
    }
  }
}
