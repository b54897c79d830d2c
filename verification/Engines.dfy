/**
 The engines over the one database that the server opens: each keeps to its own root, so what one of them
 does leaves the others as they are. Only the two logins share keys.
 */
module Engines {
  import opened Wrappers
  import opened Json
  import opened Database
  import Crypto
  import KVLayout
  import KVRecords
  import KVStore
  import Transit
  import TransitStore
  import Challenge
  import Ed25519Auth
  import Session
  import SessionStore
  import Totp

  // ---- the roots ----

  /** The keys of all engines by their characters. */
  lemma {:induction false} RootTexts(name: string)
    ensures KVLayout.KV_ROOT == "secrets/kv/" && Session.SESSION_ROOT == "auth/sessions/"
    ensures TransitStore.RingKey(name) == "secrets/transit/" + name
    ensures Ed25519Auth.ServiceKey(name) == "auth/services/" + name
    ensures Totp.TOTP_ROOT + name == "auth/services/totp/" + name
  {
  }

  lemma {:induction false} RootsAreDisjoint()
    ensures DisjointRoots(KVLayout.KV_ROOT, TransitStore.TRANSIT_ROOT)
    ensures DisjointRoots(KVLayout.KV_ROOT, Ed25519Auth.SERVICE_ROOT)
    ensures DisjointRoots(KVLayout.KV_ROOT, Session.SESSION_ROOT)
    ensures DisjointRoots(TransitStore.TRANSIT_ROOT, Ed25519Auth.SERVICE_ROOT)
    ensures DisjointRoots(TransitStore.TRANSIT_ROOT, Session.SESSION_ROOT)
    ensures DisjointRoots(Ed25519Auth.SERVICE_ROOT, Session.SESSION_ROOT)
  {
    assert KVLayout.KV_ROOT[8] == 'k' && TransitStore.TRANSIT_ROOT[8] == 't';
    assert KVLayout.KV_ROOT[0] == TransitStore.TRANSIT_ROOT[0] == 's';
    assert Ed25519Auth.SERVICE_ROOT[0] == Session.SESSION_ROOT[0] == 'a';
    assert Ed25519Auth.SERVICE_ROOT[7] == 'r' && Session.SESSION_ROOT[7] == 's';
  }

  // ---- the keys that the two logins share ----

  /**
   A service record and a TOTP record have the same key exactly when the service is called `totp/` and the
   other name.
   */
  lemma {:induction false} SharedKeyIff(service: string, name: string)
    ensures Ed25519Auth.ServiceKey(service) == Totp.TOTP_ROOT + name <==> service == "totp/" + name
  {
    assert Totp.TOTP_ROOT + name == Ed25519Auth.SERVICE_ROOT + ("totp/" + name);
    if Ed25519Auth.ServiceKey(service) == Ed25519Auth.ServiceKey("totp/" + name) {
      Ed25519Auth.ServiceKeyInjective(service, "totp/" + name);
    }
  }

  /** Writing or removing a service record changes what a TOTP login reads only under that name. */
  lemma {:induction false} OtherCodesStay(env: Totp.Env, store: map<string, bytes>, store': map<string, bytes>,
                                          service: string, name: string)
    requires service != "totp/" + name
    requires forall k :: k != Ed25519Auth.ServiceKey(service) ==>
        (k in store <==> k in store') && (k in store ==> store[k] == store'[k])
    ensures Totp.FetchTOTP(env, store', name) == Totp.FetchTOTP(env, store, name)
  {
    SharedKeyIff(service, name);
  }

  function AsService(codes: Totp.Env, rec: Totp.TOTPRecord): Challenge.ServiceRecord {
    Challenge.ServiceRecord(codes.json.text(rec.name), [], codes.json.text(rec.policy))
  }

  function AsCode(services: Ed25519Auth.Env, rec: Challenge.ServiceRecord): Totp.TOTPRecord {
    Totp.TOTPRecord(services.json.text(rec.name), [], services.json.text(rec.policy))
  }

  /**
   Both record types are JSON objects with a name and a policy, and unknown fields are skipped: each reads
   as the other with its key material missing.
   */
  ghost predicate CrossReads(services: Ed25519Auth.Env, codes: Totp.Env) {
    && (forall rec :: codes.codec.marshal(rec).Some? ==>
          services.codec.unmarshal(codes.codec.marshal(rec).value)
          == Some(AsService(codes, rec)))
    && (forall rec :: services.codec.marshal(rec).Some? ==>
          codes.codec.unmarshal(services.codec.marshal(rec).value)
          == Some(AsCode(services, rec)))
  }

  /** A service called `totp/` and a name reads as a TOTP record of that name with an empty secret. */
  lemma {:induction false} ServiceReadsAsCode(services: Ed25519Auth.Env, codes: Totp.Env, store: map<string, bytes>,
                                              rec: Challenge.ServiceRecord, name: string)
    requires CrossReads(services, codes) && services.codec.marshal(rec).Some? && rec.name == "totp/" + name
    ensures Totp.FetchTOTP(codes, store[Ed25519Auth.ServiceKey(rec.name) := services.codec.marshal(rec).value], name)
         == Ok(AsCode(services, rec))
  {
    SharedKeyIff(rec.name, name);
  }

  /** And a TOTP record is a service record of that name, without a public key. */
  lemma {:induction false} CodeIsService(services: Ed25519Auth.Env, codes: Totp.Env, store: map<string, bytes>,
                                         store': map<string, bytes>, known: Ed25519Auth.Services,
                                         rec: Totp.TOTPRecord)
    requires CrossReads(services, codes) && codes.codec.marshal(rec).Some?
    requires Ed25519Auth.Represents(services, store, known)
    requires store' == store[Totp.TOTP_ROOT + rec.name := codes.codec.marshal(rec).value]
    ensures Ed25519Auth.Represents(services, store', known["totp/" + rec.name := AsService(codes, rec)])
    ensures AsService(codes, rec).publicKey == []
  {
    SharedKeyIff("totp/" + rec.name, rec.name);
    Ed25519Auth.ServiceWritten(services, store, known, "totp/" + rec.name, codes.codec.marshal(rec).value,
                               AsService(codes, rec));
  }

  /**
   After writing a service record: TOTP logins read what they read before, except under a name that shares
   its key.
   */
  ghost predicate CodesAfter(services: Ed25519Auth.Env, codes: Totp.Env, store: map<string, bytes>,
                             store': map<string, bytes>, rec: Challenge.ServiceRecord)
  {
    forall name ::
      Totp.FetchTOTP(codes, store', name) == (
        if rec.name == "totp/" + name
        then Ok(AsCode(services, rec))
        else Totp.FetchTOTP(codes, store, name))
  }

  lemma {:induction false} ServiceChangesOneCode(services: Ed25519Auth.Env, codes: Totp.Env,
                                                 store: map<string, bytes>, store': map<string, bytes>,
                                                 rec: Challenge.ServiceRecord)
    requires CrossReads(services, codes) && services.codec.marshal(rec).Some?
    requires store' == store[Ed25519Auth.ServiceKey(rec.name) := services.codec.marshal(rec).value]
    ensures CodesAfter(services, codes, store, store', rec)
  {
    forall name
      ensures Totp.FetchTOTP(codes, store', name) == (
                if rec.name == "totp/" + name
                then Ok(AsCode(services, rec))
                else Totp.FetchTOTP(codes, store, name))
    {
      if rec.name == "totp/" + name {
        ServiceReadsAsCode(services, codes, store, rec, name);
      } else {
        OtherCodesStay(codes, store, store', rec.name, name);
      }
    }
  }

  /** After writing a TOTP record: it reads back under its name, and the others read as before. */
  ghost predicate CodesWith(codes: Totp.Env, store: map<string, bytes>, store': map<string, bytes>,
                            rec: Totp.TOTPRecord)
  {
    forall name ::
      Totp.FetchTOTP(codes, store', name) == (
        if name == rec.name then Ok(Totp.StoredRecord(codes.json, rec)) else Totp.FetchTOTP(codes, store, name))
  }

  lemma {:induction false} CodeChangesOneCode(codes: Totp.Env, store: map<string, bytes>, store': map<string, bytes>,
                                              rec: Totp.TOTPRecord)
    requires codes.Lawful() && codes.codec.marshal(rec).Some?
    requires store' == store[Totp.TOTP_ROOT + rec.name := codes.codec.marshal(rec).value]
    ensures CodesWith(codes, store, store', rec)
  {
    forall name
      ensures Totp.FetchTOTP(codes, store', name) == (
                if name == rec.name then Ok(Totp.StoredRecord(codes.json, rec)) else Totp.FetchTOTP(codes, store, name))
    {
      if Totp.TOTP_ROOT + name == Totp.TOTP_ROOT + rec.name {
        assert name == (Totp.TOTP_ROOT + name)[|Totp.TOTP_ROOT|..] ==
            (Totp.TOTP_ROOT + rec.name)[|Totp.TOTP_ROOT|..] == rec.name;
      }
    }
  }

  /**
   What a TOTP registration files is no way into the challenge login: whatever runs, no Verify succeeds for
   that service unless it is registered with a key as well.
   */
  lemma {:induction false} CodeNeverAccepted(s: Challenge.System, verify: Challenge.Verifier, pruning: bool,
                                             codes: Totp.Env, rec: Totp.TOTPRecord, actions: seq<Challenge.Action>)
    requires forall i :: 0 <= i < |actions| ==> !Challenge.Enrols(actions[i], "totp/" + rec.name)
    ensures var filed := Challenge.Apply(s, verify, pruning,
        Challenge.Register("totp/" + rec.name, AsService(codes, rec)));
            var s' := Challenge.Run(filed, verify, pruning, actions);
            && s.accepted <= s'.accepted
            && forall i :: |s.accepted| <= i < |s'.accepted| ==> s'.accepted[i].service != "totp/" + rec.name
  {
    var filed := Challenge.Apply(s, verify, pruning, Challenge.Register("totp/" + rec.name, AsService(codes, rec)));
    Challenge.RemovedServiceRejected(filed, verify, pruning, "totp/" + rec.name, actions);
  }

  /**
   After removing a service record: TOTP logins find nothing under the name that shares its key, and the rest
   as before.
   */
  ghost predicate CodesWithout(codes: Totp.Env, store: map<string, bytes>, store': map<string, bytes>,
                               service: string)
  {
    forall name ::
      Totp.FetchTOTP(codes, store', name) == (
        if service == "totp/" + name then Err(UnknownService) else Totp.FetchTOTP(codes, store, name))
  }

  lemma {:induction false} DeletionRemovesOneCode(codes: Totp.Env, store: map<string, bytes>,
                                                  store': map<string, bytes>, service: string)
    requires store' == store - {Ed25519Auth.ServiceKey(service)}
    ensures CodesWithout(codes, store, store', service)
  {
    forall name
      ensures Totp.FetchTOTP(codes, store', name) == (
                if service == "totp/" + name then Err(UnknownService) else Totp.FetchTOTP(codes, store, name))
    {
      SharedKeyIff(service, name);
    }
  }

  // ---- what survives a change below another root ----

  /** Every engine whose root shares no key with the changed one still finds its records. */
  lemma {:induction false} EnginesSurvive(kv: KVStore.Env, transit: TransitStore.Env, services: Ed25519Auth.Env,
                                          sessions: Codec<Session.SessionMeta>, store: map<string, bytes>,
                                          store': map<string, bytes>, root: string, records: KVRecords.Records,
                                          rings: Transit.Rings, known: Ed25519Auth.Services,
                                          live: SessionStore.Sessions)
    requires SameOutside(store, store', root)
    requires KVStore.Represents(kv, store, records) && TransitStore.Represents(transit, store, rings)
    requires Ed25519Auth.Represents(services, store, known) && SessionStore.Represents(sessions, store, live)
    ensures DisjointRoots(root, KVLayout.KV_ROOT) ==> KVStore.Represents(kv, store', records)
    ensures DisjointRoots(root, TransitStore.TRANSIT_ROOT) ==> TransitStore.Represents(transit, store', rings)
    ensures DisjointRoots(root, Ed25519Auth.SERVICE_ROOT) ==> Ed25519Auth.Represents(services, store', known)
    ensures DisjointRoots(root, Session.SESSION_ROOT) ==> SessionStore.Represents(sessions, store', live)
  {
    if DisjointRoots(root, KVLayout.KV_ROOT) {
      OutsideIsBelow(store, store', root, KVLayout.KV_ROOT);
      KVStore.OnlyOwnKeysCount(kv, store, store', records);
    }
    if DisjointRoots(root, TransitStore.TRANSIT_ROOT) {
      OutsideIsBelow(store, store', root, TransitStore.TRANSIT_ROOT);
      TransitStore.OnlyOwnKeysCount(transit, store, store', rings);
    }
    if DisjointRoots(root, Ed25519Auth.SERVICE_ROOT) {
      OutsideIsBelow(store, store', root, Ed25519Auth.SERVICE_ROOT);
      Ed25519Auth.OnlyOwnKeysCount(services, store, store', known);
    }
    if DisjointRoots(root, Session.SESSION_ROOT) {
      OutsideIsBelow(store, store', root, Session.SESSION_ROOT);
      SessionStore.OnlyOwnKeysCount(sessions, store, store', live);
    }
  }

  lemma {:induction false} CodesSurvive(env: Totp.Env, store: map<string, bytes>, store': map<string, bytes>,
                                        root: string)
    requires SameOutside(store, store', root) && DisjointRoots(root, Ed25519Auth.SERVICE_ROOT)
    ensures forall name :: Totp.FetchTOTP(env, store', name) == Totp.FetchTOTP(env, store, name)
  {
    OutsideIsBelow(store, store', root, Ed25519Auth.SERVICE_ROOT);
    forall name ensures Totp.FetchTOTP(env, store', name) == Totp.FetchTOTP(env, store, name) {
      assert Ed25519Auth.SERVICE_ROOT <= Totp.TOTP_ROOT + name;
    }
  }

  lemma {:induction false} ExpiringStay(before: set<string>, after: set<string>, root: string)
    requires forall k :: !(root <= k) ==> (k in after <==> k in before)
    requires DisjointRoots(root, Session.SESSION_ROOT)
    ensures forall k :: Session.SESSION_ROOT <= k ==> (k in after <==> k in before)
  {
    forall k | Session.SESSION_ROOT <= k ensures k in after <==> k in before {
      if root <= k { PrefixesCompare(root, Session.SESSION_ROOT, k); }
    }
  }

  /** A new database holds no records of any engine. */
  lemma {:induction false} EmptyDatabase(kv: KVStore.Env, transit: TransitStore.Env, services: Ed25519Auth.Env,
                                         sessions: Codec<Session.SessionMeta>)
    ensures KVStore.Represents(kv, map[], KVRecords.EMPTY) && TransitStore.Represents(transit, map[], map[])
    ensures Ed25519Auth.Represents(services, map[], map[]) && SessionStore.Represents(sessions, map[], map[])
  {
    KVStore.EmptyRepresents(kv, map[]);
    TransitStore.EmptyRepresents(transit, map[]);
    Ed25519Auth.EmptyRepresents(services, map[]);
  }

  // ---- the engines together ----

  class Engines {
    const db: DB
    const kv: KVStore.KVStore
    const transit: TransitStore.TransitStore
    const services: Ed25519Auth.Ed25519Auth
    const sessions: SessionStore.SessionStore
    const codes: Totp.TOTPAuth

    ghost predicate Valid()
      reads this, db, kv, transit, services, sessions
    {
      && kv.db == db && transit.db == db && services.db == db && sessions.db == db && codes.db == db
      && kv.Valid() && transit.Valid() && services.Valid() && sessions.Valid() && codes.env.Lawful()
      && CrossReads(services.env, codes.env)
      && (forall k :: k in db.expiring ==> Session.SESSION_ROOT <= k)
    }

    /** What TOTP logins read under any name is as it was. */
    twostate predicate SameCodes()
      reads db
    {
      forall name :: Totp.FetchTOTP(codes.env, db.store, name) == Totp.FetchTOTP(codes.env, old(db.store), name)
    }

    /** All engines over one database, as the server starts them. The database may hold records already. */
    constructor (db: DB, crypto: Crypto.Crypto, kvEnv: KVStore.Env, transitEnv: TransitStore.Env,
                 serviceEnv: Ed25519Auth.Env, sessionEnv: Session.Env, sessionCodec: Codec<Session.SessionMeta>,
                 codeEnv: Totp.Env, ghost records: KVRecords.Records, ghost rings: Transit.Rings,
                 ghost known: Ed25519Auth.Services, ghost live: SessionStore.Sessions)
      requires crypto.prims == kvEnv.prims == transitEnv.prims == sessionEnv.prims
      requires kvEnv.Lawful() && transitEnv.Lawful() && serviceEnv.Lawful() && codeEnv.Lawful() &&
          CrossReads(serviceEnv, codeEnv)
      requires sessionEnv.prims.HashLength() &&
          sessionCodec.ReadsBack(m => Some(Session.StoredMeta(sessionEnv.json, m)))
      requires KVStore.Represents(kvEnv, db.store, records) && KVRecords.Labelled(records, kvEnv.json)
      requires TransitStore.Represents(transitEnv, db.store, rings) && Transit.AllInOrder(transitEnv.json, rings)
      requires Ed25519Auth.Represents(serviceEnv, db.store, known) &&
          SessionStore.Represents(sessionCodec, db.store, live)
      requires forall k :: k in db.expiring ==> Session.SESSION_ROOT <= k
      requires forall k :: k in live ==> Session.SESSION_ROOT <= k && k in db.expiring
      ensures Valid() && this.db == db
      ensures kv.records == records && transit.rings == rings && services.services == known && sessions.sessions == live
      ensures kv.env == kvEnv && transit.env == transitEnv && services.env == serviceEnv && sessions.env == sessionEnv
      ensures codes.env == codeEnv
    {
      this.db := db;
      kv := new KVStore.KVStore(db, crypto, kvEnv, records);
      transit := new TransitStore.TransitStore(db, crypto, transitEnv, rings);
      services := new Ed25519Auth.Ed25519Auth(db, crypto, serviceEnv, known);
      sessions := new SessionStore.SessionStore(db, crypto, sessionEnv, sessionCodec, live);
      codes := new Totp.TOTPAuth(db, codeEnv);
    }

    /**
     An engine that has its old records, over a database that was changed below another root only, is as
     valid as before.
     */
    twostate lemma {:induction false} OthersStay(root: string)
      requires old(Valid()) && db.StaysBelow(root)
      ensures DisjointRoots(root, KVLayout.KV_ROOT) && kv.records == old(kv.records) ==> kv.Valid()
      ensures DisjointRoots(root, TransitStore.TRANSIT_ROOT) && transit.rings == old(transit.rings) ==> transit.Valid()
      ensures DisjointRoots(root, Ed25519Auth.SERVICE_ROOT) ==> SameCodes()
      ensures (&& DisjointRoots(root, Ed25519Auth.SERVICE_ROOT)
               && services.services == old(services.services) && services.challenges == old(services.challenges)) ==>
                    services.Valid()
      ensures DisjointRoots(root, Session.SESSION_ROOT) && sessions.sessions == old(sessions.sessions) ==>
          sessions.Valid()
    {
      EnginesSurvive(kv.env, transit.env, services.env, sessions.codec, old(db.store), db.store, root,
                     old(kv.records), old(transit.rings), old(services.services), old(sessions.sessions));
      if DisjointRoots(root, Ed25519Auth.SERVICE_ROOT) { CodesSurvive(codes.env, old(db.store), db.store, root); }
      if DisjointRoots(root, Session.SESSION_ROOT) { ExpiringStay(old(db.expiring), db.expiring, root); }
    }

    /** So all engines together are valid again, if the one that the call went to is. */
    twostate lemma {:induction false} StaysValid(root: string)
      requires old(Valid()) && db.StaysBelow(root)
      requires root == Session.SESSION_ROOT || db.expiring <= old(db.expiring)
      requires kv.Valid() || (DisjointRoots(root, KVLayout.KV_ROOT) && kv.records == old(kv.records))
      requires transit.Valid() ||
          (DisjointRoots(root, TransitStore.TRANSIT_ROOT) && transit.rings == old(transit.rings))
      requires services.Valid() || (&& DisjointRoots(root, Ed25519Auth.SERVICE_ROOT)
                                    && services.services == old(services.services) &&
                                         services.challenges == old(services.challenges))
      requires sessions.Valid() ||
          (DisjointRoots(root, Session.SESSION_ROOT) && sessions.sessions == old(sessions.sessions))
      ensures Valid()
      ensures DisjointRoots(root, Ed25519Auth.SERVICE_ROOT) ==> SameCodes()
    {
      OthersStay(root);
    }

    /** A Set of a secret touches no key ring, no service, no code and no session. */
    method SetSecret(path: string, value: JsonValue, now: Time) returns (r: Result<KVRecords.KVEntry>)
      requires Valid()
      modifies kv, db
      ensures Valid() && SameCodes()
      ensures KVRecords.SetOutcome(old(kv.records), kv.env.json, path, value, now, kv.records, r)
      ensures kv.Reliable() ==> (kv.records, r) == KVRecords.SetSecret(old(kv.records), kv.env.json, path, value, now)
    {
      r := kv.Set(path, value, now);
      RootsAreDisjoint();
      StaysValid(KVLayout.KV_ROOT);
    }

    method DeleteSecret(path: string, now: Time) returns (err: Option<Error>)
      requires Valid()
      modifies kv, db
      ensures Valid() && SameCodes()
      ensures KVRecords.DeleteOutcome(old(kv.records), kv.env.json, path, now, kv.records, err)
      ensures kv.Reliable() ==> (kv.records, err) == KVRecords.DeleteSecret(old(kv.records), kv.env.json, path, now)
    {
      err := kv.Delete(path, now);
      RootsAreDisjoint();
      StaysValid(KVLayout.KV_ROOT);
    }

    method Rollback(path: string, version: int, now: Time) returns (r: Result<KVRecords.KVEntry>)
      requires Valid()
      modifies kv, db
      ensures Valid() && SameCodes()
      ensures KVRecords.RollbackOutcome(old(kv.records), kv.env.json, path, version, now, kv.records, r)
      ensures kv.Reliable() ==>
          (kv.records, r) == KVRecords.RollbackSecret(old(kv.records), kv.env.json, path, version, now)
    {
      r := kv.Rollback(path, version, now);
      RootsAreDisjoint();
      StaysValid(KVLayout.KV_ROOT);
    }

    method CreateKey(name: string, now: Time) returns (err: Option<Error>, ghost done: Transit.Action)
      requires Valid()
      modifies transit, db
      ensures Valid() && SameCodes()
      ensures TransitStore.CreateOutcome(transit.env, transit.Reliable(), old(transit.rings), transit.rings, name,
          now, err, done)
    {
      err, done := transit.CreateKey(name, now);
      RootsAreDisjoint();
      StaysValid(TransitStore.TRANSIT_ROOT);
    }

    method RotateKey(name: string, now: Time) returns (err: Option<Error>, ghost done: Transit.Action)
      requires Valid()
      modifies transit, db
      ensures Valid() && SameCodes()
      ensures TransitStore.RotateOutcome(transit.env, transit.Reliable(), old(transit.rings), transit.rings, name,
          now, err, done)
    {
      err, done := transit.Rotate(name, now);
      RootsAreDisjoint();
      StaysValid(TransitStore.TRANSIT_ROOT);
    }

    method IssueSession(identity: string, authMethod: string, policy: string, now: Time)
      returns (r: Result<Session.Token>)
      requires Valid()
      modifies sessions, db
      ensures Valid() && SameCodes()
      ensures SessionStore.IssueOutcome(sessions.env, sessions.Reliable(), old(sessions.sessions), sessions.sessions,
                                        identity, authMethod, policy, now, r)
    {
      r := sessions.Issue(identity, authMethod, policy, now);
      RootsAreDisjoint();
      StaysValid(Session.SESSION_ROOT);
    }

    method ValidateSession(token: Session.Token, now: Time) returns (r: Result<Session.SessionMeta>)
      requires Valid()
      modifies sessions, db
      ensures Valid() && SameCodes()
      ensures SessionStore.ValidateOutcome(sessions.env, sessions.Reliable(), old(sessions.sessions), sessions.sessions,
                                           token, now, r)
    {
      r := sessions.Validate(token, now);
      RootsAreDisjoint();
      StaysValid(Session.SESSION_ROOT);
    }

    method RevokeSession(token: Session.Token) returns (err: Option<Error>)
      requires Valid()
      modifies sessions, db
      ensures Valid() && SameCodes()
      ensures err.None? ==> sessions.sessions == old(sessions.sessions) - {Session.SessionKey(sessions.env, token)}
      ensures err.Some? ==> sessions.sessions == old(sessions.sessions) && !sessions.Reliable()
    {
      err := sessions.Revoke(token);
      RootsAreDisjoint();
      StaysValid(Session.SESSION_ROOT);
    }

    /** Only session records ever vanish by themselves. */
    method Vanish(key: string)
      requires Valid() && key in db.expiring
      modifies sessions, db
      ensures Valid() && SameCodes() && sessions.sessions == old(sessions.sessions) - {key}
    {
      sessions.Vanish(key);
      RootsAreDisjoint();
      StaysValid(Session.SESSION_ROOT);
    }

    /** A service registration changes what TOTP logins read exactly under the name that shares its key. */
    method RegisterService(rec: Challenge.ServiceRecord) returns (err: Option<Error>)
      requires Valid()
      modifies services, db
      ensures Valid() && services.challenges == old(services.challenges)
      ensures err.None? ==>
          services.services == old(services.services)[rec.name := Ed25519Auth.StoredService(services.env.json, rec)]
      ensures err.Some? ==> services.services == old(services.services) && SameCodes() && !services.Reliable()
      ensures err.None? ==> CodesAfter(services.env, codes.env, old(db.store), db.store, rec)
    {
      err := services.RegisterService(rec);
      RootsAreDisjoint();
      StaysValid(Ed25519Auth.SERVICE_ROOT);
      if err.None? {
        ServiceChangesOneCode(services.env, codes.env, old(db.store), db.store, rec);
      }
    }

    /** Deleting a service deletes the TOTP record that shares its key, and no other. */
    method DeleteService(service: string) returns (err: Option<Error>)
      requires Valid()
      modifies services, db
      ensures Valid() && services.challenges == old(services.challenges)
      ensures err.None? ==> services.services == old(services.services) - {service}
      ensures err.Some? ==> services.services == old(services.services) && SameCodes() && !services.Reliable()
      ensures err.None? ==> CodesWithout(codes.env, old(db.store), db.store, service)
    {
      err := services.DeleteService(service);
      RootsAreDisjoint();
      StaysValid(Ed25519Auth.SERVICE_ROOT);
      if err.None? {
        DeletionRemovesOneCode(codes.env, old(db.store), db.store, service);
      }
    }

    /** A TOTP registration is at the same time the registration of a service, one without a public key. */
    method RegisterCode(rec: Totp.TOTPRecord) returns (err: Option<Error>)
      requires Valid()
      modifies services, db
      ensures Valid() && services.challenges == old(services.challenges)
      ensures err.None? ==> CodesWith(codes.env, old(db.store), db.store, rec)
      ensures err.None? ==> services.services == old(services.services)["totp/" + rec.name := AsService(codes.env, rec)]
      ensures err.Some? ==> services.services == old(services.services) && SameCodes() && !db.reliable
    {
      ghost var before := db.store;
      err := codes.RegisterTOTP(rec);
      RootsAreDisjoint();
      BelowServices();
      OthersStay(Ed25519Auth.SERVICE_ROOT);
      if err.None? {
        CodeChangesOneCode(codes.env, before, db.store, rec);
        CodeIsService(services.env, codes.env, before, db.store, services.services, rec);
        services.services := services.services["totp/" + rec.name := AsService(codes.env, rec)];
      }
    }

    /** What stays below the root of the TOTP records stays below that of the service records. */
    twostate lemma {:induction false} BelowServices()
      requires db.StaysBelow(Totp.TOTP_ROOT)
      ensures db.StaysBelow(Ed25519Auth.SERVICE_ROOT)
    {
      assert Ed25519Auth.SERVICE_ROOT <= Totp.TOTP_ROOT;
      OutsideWider(old(db.store), db.store, Totp.TOTP_ROOT, Ed25519Auth.SERVICE_ROOT);
    }
  }

  /** The server with a new database. */
  method OpenNew(reliable: bool, crypto: Crypto.Crypto, kvEnv: KVStore.Env, transitEnv: TransitStore.Env,
                 serviceEnv: Ed25519Auth.Env, sessionEnv: Session.Env, sessionCodec: Codec<Session.SessionMeta>,
                 codeEnv: Totp.Env)
    returns (engines: Engines)
    requires crypto.prims == kvEnv.prims == transitEnv.prims == sessionEnv.prims
    requires kvEnv.Lawful() && transitEnv.Lawful() && serviceEnv.Lawful() && codeEnv.Lawful()
    requires CrossReads(serviceEnv, codeEnv)
    requires sessionEnv.prims.HashLength()
    requires sessionCodec.ReadsBack(m => Some(Session.StoredMeta(sessionEnv.json, m)))
    ensures fresh(engines) && engines.Valid() && engines.db.reliable == reliable
    ensures engines.kv.records == KVRecords.EMPTY && engines.transit.rings == map[]
    ensures engines.services.services == map[] && engines.sessions.sessions == map[]
    ensures engines.kv.env == kvEnv && engines.transit.env == transitEnv && engines.services.env == serviceEnv
    ensures engines.sessions.env == sessionEnv && engines.codes.env == codeEnv
    ensures forall name :: Totp.FetchTOTP(codeEnv, engines.db.store, name) == Err(UnknownService)
  {
    var db := new DB(reliable);
    EmptyDatabase(kvEnv, transitEnv, serviceEnv, sessionCodec);
    engines := new Engines(db, crypto, kvEnv, transitEnv, serviceEnv, sessionEnv, sessionCodec, codeEnv,
                           KVRecords.EMPTY, map[], map[], map[]);
  }
}
