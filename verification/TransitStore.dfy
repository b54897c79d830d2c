/** The transit engine over the byte store: one sealed JSON record per keyring. */
module TransitStore {
  import opened Wrappers
  import opened Json
  import opened Database
  import opened Crypto
  import opened Transit
  import Base64

  const TRANSIT_ROOT := "secrets/transit/"

  function RingKey(name: string): string {
    TRANSIT_ROOT + name
  }

  datatype Env = Env(prims: Primitives, json: JsonView, codec: Codec<Keyring>) {
    ghost predicate Lawful() {
      prims.OpensSealed() && codec.ReadsBack(ring => Some(StoredRing(json, ring)))
    }
  }

  function FetchRing(env: Env, store: map<string, bytes>, name: string): Result<Keyring> {
    if RingKey(name) !in store then Err(NotFound)
    else
      match DecryptFrame(env.prims, env.prims.derive(RingKey(name)), store[RingKey(name)])
      case Err(e) => Err(e)
      case Ok(plain) =>
        match env.codec.unmarshal(plain)
        case None => Err(UnmarshalFailed)
        case Some(ring) => Ok(ring)
  }

  /** Under this name the byte store has the ring that is in `rings`, or none. */
  ghost predicate RingHolds(env: Env, store: map<string, bytes>, rings: Rings, name: string) {
    FetchRing(env, store, name) == if name in rings then Ok(rings[name]) else Err(NotFound)
  }

  /** The byte store holds exactly these rings. */
  ghost predicate Represents(env: Env, store: map<string, bytes>, rings: Rings) {
    forall name :: RingHolds(env, store, rings, name)
  }

  /** What the other engines do to their part of the store does not matter. */
  lemma {:induction false} OnlyOwnKeysCount(env: Env, store: map<string, bytes>, store': map<string, bytes>,
                                            rings: Rings)
    requires Represents(env, store, rings) && SameBelow(store, store', TRANSIT_ROOT)
    ensures Represents(env, store', rings)
  {
    forall name ensures RingHolds(env, store', rings, name) {
      assert TRANSIT_ROOT <= RingKey(name);
      assert RingHolds(env, store, rings, name);
    }
  }

  lemma {:induction false} EmptyRepresents(env: Env, store: map<string, bytes>)
    requires forall k :: k in store ==> !(TRANSIT_ROOT <= k)
    ensures Represents(env, store, map[])
  {
    forall name ensures RingHolds(env, store, map[], name) {
      assert TRANSIT_ROOT <= RingKey(name);
    }
  }

  lemma {:induction false} RingKeyInjective(a: string, b: string)
    requires RingKey(a) == RingKey(b)
    ensures a == b
  {
    assert RingKey(a)[|TRANSIT_ROOT|..] == a && RingKey(b)[|TRANSIT_ROOT|..] == b;
  }

  lemma {:induction false} RingWritten(env: Env, store: map<string, bytes>, rings: Rings, ring: Keyring, plain: bytes,
                                       data: bytes)
    requires Represents(env, store, rings) && env.Lawful()
    requires env.codec.marshal(ring) == Some(plain)
    requires IsFrame(env.prims, env.prims.derive(RingKey(ring.name)), data, plain)
    ensures Represents(env, store[RingKey(ring.name) := data], Save(rings, env.json, ring))
  {
    var store', rings' := store[RingKey(ring.name) := data], Save(rings, env.json, ring);
    FrameOpens(env.prims, env.prims.derive(RingKey(ring.name)), data, plain);
    forall name ensures RingHolds(env, store', rings', name) {
      if RingKey(name) == RingKey(ring.name) { RingKeyInjective(name, ring.name); }
      assert RingHolds(env, store, rings, name);
    }
  }

  /**
   What CreateKey may answer and leave behind. It refuses an existing name, unless the ring could not be
   read; on any error nothing has changed.
   */
  ghost predicate CreateOutcome(env: Env, reliable: bool, rings: Rings, rings': Rings, name: string, now: Time,
                                err: Option<Error>, done: Action)
  {
    && done.CreateKey? && done.name == name && done.now == now && |done.key| == 32
    && rings' == Apply(rings, env.json, done)
    && (reliable ==> !done.readFails && !done.writeFails)
    && (reliable ==> err == if name in rings then Some(AlreadyExists) else None)
    && (err.None? ==> !done.writeFails && (name in rings ==> done.readFails))
    && (err.Some? ==> rings' == rings)
  }

  /** What Rotate may answer and leave behind: one more version, or an error and no change. */
  ghost predicate RotateOutcome(env: Env, reliable: bool, rings: Rings, rings': Rings, name: string, now: Time,
                                err: Option<Error>, done: Action)
  {
    && done.Rotate? && done.name == name && done.now == now && |done.key| == 32
    && rings' == Apply(rings, env.json, done)
    && (reliable ==> !done.readFails && !done.writeFails)
    && (reliable ==> err == if name in rings then None else Some(NotFound))
    && (err.None? ==> !done.writeFails && !done.readFails && name in rings)
    && (err.Some? ==> rings' == rings)
  }

  /** keyVersion: the loop over the versions of a ring. */
  method FindKeyVersion(ring: Keyring, v: nat) returns (found: Option<KeyVersion>)
    ensures found == KeyAt(ring.versions, v)
  {
    var i := 0;
    while i < |ring.versions|
      invariant i <= |ring.versions|
      invariant KeyAt(ring.versions[i..], v) == KeyAt(ring.versions, v)
    {
      if ring.versions[i].version == v {
        return Some(ring.versions[i]);
      }
      assert ring.versions[i..][1..] == ring.versions[i + 1..];
      i := i + 1;
    }
    return None;
  }

  /** Info: the ring without its key material. */
  method StripKeys(ring: Keyring) returns (safe: Keyring)
    ensures safe.name == ring.name && safe.currentVersion == ring.currentVersion
    ensures |safe.versions| == |ring.versions|
    ensures forall i :: 0 <= i < |safe.versions| ==> safe.versions[i] == ring.versions[i].(key := [])
  {
    safe := Keyring(ring.name, ring.currentVersion, []);
    for i := 0 to |ring.versions|
      invariant safe.name == ring.name && safe.currentVersion == ring.currentVersion
      invariant |safe.versions| == i
      invariant forall k :: 0 <= k < i ==> safe.versions[k] == ring.versions[k].(key := [])
    {
      var v := ring.versions[i];
      safe := safe.(versions := safe.versions + [KeyVersion(v.version, [], v.createdAt)]);
    }
  }

  class TransitStore {
    const db: DB
    const crypto: Crypto
    const env: Env
    ghost var rings: Rings

    ghost predicate Valid()
      reads this, db
    {
      && crypto.prims == env.prims && env.Lawful()
      && Represents(env, db.store, rings) && AllInOrder(env.json, rings)
    }

    ghost predicate Reliable() {
      db.reliable && crypto.reliable
    }

    /** Opens a store that may hold keys already. */
    constructor (db: DB, crypto: Crypto, env: Env, ghost stored: Rings)
      requires crypto.prims == env.prims && env.Lawful()
      requires Represents(env, db.store, stored) && AllInOrder(env.json, stored)
      ensures Valid() && rings == stored && this.db == db && this.crypto == crypto && this.env == env
    {
      this.db := db;
      this.crypto := crypto;
      this.env := env;
      rings := stored;
    }

    method LoadMeta(name: string) returns (r: Result<Keyring>)
      requires crypto.prims == env.prims
      ensures r == FetchRing(env, db.store, name) || (!Reliable() && r == Err(StorageFailure))
    {
      var storageKey := "secrets/transit/" + name;
      var data := db.Get(storageKey);
      if data.Err? {
        return Err(data.error);
      }
      var plain := crypto.Decrypt(storageKey, data.value);
      if plain.Err? {
        return Err(plain.error);
      }
      match env.codec.unmarshal(plain.value)
      case None => return Err(UnmarshalFailed);
      case Some(ring) => return Ok(ring);
    }

    method SaveMeta(ring: Keyring) returns (err: Option<Error>)
      requires crypto.prims == env.prims && env.Lawful() && Represents(env, db.store, rings)
      modifies this, db
      ensures err.None? ==> rings == Save(old(rings), env.json, ring)
      ensures err.Some? ==> rings == old(rings) && !Reliable()
      ensures Represents(env, db.store, rings)
      ensures db.StaysBelow(TRANSIT_ROOT) && db.expiring <= old(db.expiring)
    {
      var storageKey := "secrets/transit/" + ring.name;
      var data := env.codec.marshal(ring);
      if data.None? {
        return Some(MarshalFailed);
      }
      var enc := crypto.Encrypt(storageKey, data.value);
      if enc.Err? {
        return Some(enc.error);
      }
      RingWritten(env, db.store, rings, ring, data.value, enc.value);
      assert TRANSIT_ROOT <= storageKey;
      err := db.Set(storageKey, enc.value);
      if err.None? {
        rings := Save(rings, env.json, ring);
      }
    }

    /** `done` tells which key operation took place, with the key drawn and the faults met. */
    method CreateKey(name: string, now: Time) returns (err: Option<Error>, ghost done: Action)
      requires Valid()
      modifies this, db
      ensures Valid() && db.StaysBelow(TRANSIT_ROOT) && db.expiring <= old(db.expiring)
      ensures CreateOutcome(env, Reliable(), old(rings), rings, name, now, err, done)
    {
      var loaded := LoadMeta(name);
      assert RingHolds(env, db.store, rings, name);
      var readFails := loaded.Err? && loaded.error == StorageFailure;
      assert |seq(KEY_LEN, _ => 0 as byte)| == KEY_LEN;
      ghost var anyKey := seq(KEY_LEN, _ => 0 as byte);
      if loaded.Ok? {
        done := Action.CreateKey(name, anyKey, now, false, false);
        return Some(AlreadyExists), done;
      }
      var key := crypto.Random(KEY_LEN);
      if key.Err? {
        done := Action.CreateKey(name, anyKey, now, readFails, true);
        return Some(key.error), done;
      }
      err := SaveMeta(NewRing(name, key.value, now));
      done := Action.CreateKey(name, key.value, now, readFails, err.Some?);
      ApplyInOrder(old(rings), env.json, done);
    }

    method Rotate(name: string, now: Time) returns (err: Option<Error>, ghost done: Action)
      requires Valid()
      modifies this, db
      ensures Valid() && db.StaysBelow(TRANSIT_ROOT) && db.expiring <= old(db.expiring)
      ensures RotateOutcome(env, Reliable(), old(rings), rings, name, now, err, done)
    {
      var loaded := LoadMeta(name);
      assert RingHolds(env, db.store, rings, name);
      var readFails := loaded.Err? && loaded.error == StorageFailure;
      assert |seq(KEY_LEN, _ => 0 as byte)| == KEY_LEN;
      ghost var anyKey := seq(KEY_LEN, _ => 0 as byte);
      if loaded.Err? {
        done := Action.Rotate(name, anyKey, now, readFails, false);
        return Some(loaded.error), done;
      }
      var newKey := crypto.Random(KEY_LEN);
      if newKey.Err? {
        done := Action.Rotate(name, anyKey, now, false, true);
        return Some(newKey.error), done;
      }
      var meta := loaded.value;
      meta := meta.(currentVersion := meta.currentVersion + 1);
      meta := meta.(versions := meta.versions + [KeyVersion(meta.currentVersion, newKey.value, now)]);
      assert meta == RotatedRing(loaded.value, newKey.value, now);
      err := SaveMeta(meta);
      done := Action.Rotate(name, newKey.value, now, false, err.Some?);
      ApplyInOrder(old(rings), env.json, done);
    }

    method AesgcmEncryptBytes(key: bytes, plain: bytes) returns (r: Result<bytes>)
      ensures r.Ok? ==> ValidKeyLength(key) && IsFrame(crypto.prims, key, r.value, plain)
      ensures |key| !in [16, 24, 32] <==> r == Err(BadKeyLength)
      ensures r.Err? && r.error != BadKeyLength ==> !crypto.reliable && r.error == NoEntropy
    {
      if |key| != 16 && |key| != 24 && |key| != 32 {
        return Err(BadKeyLength);
      }
      r := crypto.Seal(key, plain);
    }

    method AesgcmDecryptBytes(key: bytes, data: bytes) returns (r: Result<bytes>)
      ensures r == OpenWith(crypto.prims, key, data)
      ensures |key| !in [16, 24, 32] <==> r == Err(BadKeyLength)
    {
      if |key| != 16 && |key| != 24 && |key| != 32 {
        return Err(BadKeyLength);
      }
      if |data| < NONCE_LEN {
        return Err(TooShort);
      }
      match crypto.prims.unseal(key, data[..NONCE_LEN], data[NONCE_LEN..])
      case None => return Err(OpenFailed);
      case Some(plain) => return Ok(plain);
    }

    /** The current key always exists, so Encrypt only fails for an unknown name or a fault. */
    method Encrypt(name: string, plain: bytes) returns (r: Result<string>)
      requires Valid()
      ensures r.Ok? ==> name in rings && IsCiphertext(env.prims, rings[name], plain, r.value)
      ensures r.Ok? ==> IsVaultText(r.value, rings[name].currentVersion)
      ensures Reliable() ==> (r.Ok? <==> name in rings)
    {
      var loaded := LoadMeta(name);
      assert RingHolds(env, db.store, rings, name);
      if loaded.Err? {
        return Err(loaded.error);
      }
      var ring := loaded.value;
      KeyAtIsIndex(ring, ring.currentVersion);
      var kv := FindKeyVersion(ring, ring.currentVersion);
      var ct := AesgcmEncryptBytes(kv.value.key, plain);
      if ct.Err? {
        return Err(ct.error);
      }
      var printed := Print(kv.value.version, ct.value);
      assert IsCiphertextOf(env.prims, ring, plain, printed, ct.value);
      KeyAtIsIndex(ring, ring.currentVersion);
      PrintedText(kv.value.version, ct.value);
      return Ok(printed);
    }

    method Decrypt(name: string, ciphertext: string) returns (r: Result<bytes>)
      requires Valid()
      ensures r == Transit.Decrypt(env.prims, rings, name, ciphertext) || (!Reliable() && r == Err(StorageFailure))
    {
      var parsed := ParseCiphertext(ciphertext);
      if parsed.Err? {
        return Err(parsed.error);
      }
      var loaded := LoadMeta(name);
      assert RingHolds(env, db.store, rings, name);
      if loaded.Err? {
        return Err(loaded.error);
      }
      var kv := FindKeyVersion(loaded.value, parsed.value.0);
      if kv.None? {
        return Err(KeyVersionNotFound);
      }
      var ct := Base64.Decode(parsed.value.1);
      if ct.None? {
        return Err(BadEncoding);
      }
      r := AesgcmDecryptBytes(kv.value.key, ct.value);
    }
  }
}
