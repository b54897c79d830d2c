/** The Ed25519 login: service records in the byte store, pending challenges in a table under a mutex. */
module Ed25519Auth {
  import opened Wrappers
  import opened Hex
  import opened Json
  import opened Database
  import opened Crypto
  import opened Challenge

  const SERVICE_ROOT := "auth/services/"
  const CHALLENGE_LEN: nat := 32

  function ServiceKey(name: string): string {
    SERVICE_ROOT + name
  }

  /** What a record becomes when it is written as JSON and read back. */
  function StoredService(j: JsonView, rec: ServiceRecord): ServiceRecord {
    rec.(name := j.text(rec.name), policy := j.text(rec.policy))
  }

  datatype Env = Env(verify: Verifier, json: JsonView, codec: Codec<ServiceRecord>) {
    ghost predicate Lawful() {
      codec.ReadsBack(rec => Some(StoredService(json, rec)))
    }
  }

  type Services = map<string, ServiceRecord>

  function FetchService(env: Env, store: map<string, bytes>, name: string): Result<ServiceRecord> {
    if ServiceKey(name) !in store then Err(UnknownService)
    else
      match env.codec.unmarshal(store[ServiceKey(name)])
      case None => Err(UnmarshalFailed)
      case Some(rec) => Ok(rec)
  }

  /** Under this name the store has the record that is in `services`, or none. */
  ghost predicate ServiceHolds(env: Env, store: map<string, bytes>, services: Services, name: string) {
    FetchService(env, store, name) == if name in services then Ok(services[name]) else Err(UnknownService)
  }

  ghost predicate Represents(env: Env, store: map<string, bytes>, services: Services) {
    forall name :: ServiceHolds(env, store, services, name)
  }

  /** What the other engines do to their part of the store does not matter. */
  lemma {:induction false} OnlyOwnKeysCount(env: Env, store: map<string, bytes>, store': map<string, bytes>,
                                            services: Services)
    requires Represents(env, store, services) && SameBelow(store, store', SERVICE_ROOT)
    ensures Represents(env, store', services)
  {
    forall name ensures ServiceHolds(env, store', services, name) {
      assert SERVICE_ROOT <= ServiceKey(name);
      assert ServiceHolds(env, store, services, name);
    }
  }

  lemma {:induction false} EmptyRepresents(env: Env, store: map<string, bytes>)
    requires forall k :: k in store ==> !(SERVICE_ROOT <= k)
    ensures Represents(env, store, map[])
  {
    forall name ensures ServiceHolds(env, store, map[], name) {
      assert SERVICE_ROOT <= ServiceKey(name);
    }
  }

  lemma {:induction false} ServiceKeyInjective(a: string, b: string)
    requires ServiceKey(a) == ServiceKey(b)
    ensures a == b
  {
    assert ServiceKey(a)[|SERVICE_ROOT|..] == a && ServiceKey(b)[|SERVICE_ROOT|..] == b;
  }

  lemma {:induction false} ServiceWritten(env: Env, store: map<string, bytes>, services: Services, name: string,
                                          data: bytes, rec: ServiceRecord)
    requires Represents(env, store, services) && env.codec.unmarshal(data) == Some(rec)
    ensures Represents(env, store[ServiceKey(name) := data], services[name := rec])
  {
    var store', services' := store[ServiceKey(name) := data], services[name := rec];
    forall n ensures ServiceHolds(env, store', services', n) {
      if ServiceKey(n) == ServiceKey(name) { ServiceKeyInjective(n, name); }
      assert ServiceHolds(env, store, services, n);
    }
  }

  lemma {:induction false} ServiceRemoved(env: Env, store: map<string, bytes>, services: Services, name: string)
    requires Represents(env, store, services)
    ensures Represents(env, store - {ServiceKey(name)}, services - {name})
  {
    var store', services' := store - {ServiceKey(name)}, services - {name};
    forall n ensures ServiceHolds(env, store', services', n) {
      if ServiceKey(n) == ServiceKey(name) { ServiceKeyInjective(n, name); }
      assert ServiceHolds(env, store, services, n);
    }
  }

  /** Every challenge is filed under its own hexadecimal form. */
  ghost predicate Filed(t: Table) {
    forall key :: key in t ==> key == ToHex(t[key].challenge)
  }

  /** What a Verify call that runs alone must answer. */
  function VerifyAnswer(env: Env, t: Table, services: Services, challenge: bytes, signature: bytes,
                        now: Time): Result<ServiceRecord>
  {
    var key := ToHex(challenge);
    if key !in t then Err(ChallengeUnknown)
    else if Expired(t[key], now) then Err(ChallengeExpired)
    else if t[key].service !in services then Err(UnknownService)
    else SignatureAnswer(env, services[t[key].service], challenge, signature)
  }

  function SignatureAnswer(env: Env, svc: ServiceRecord, challenge: bytes, signature: bytes): Result<ServiceRecord> {
    if |svc.publicKey| != PUBLIC_KEY_LEN then Err(BadPublicKey)
    else if env.verify(svc.publicKey, challenge, signature) then Ok(svc)
    else Err(BadSignature)
  }

  /** The last two steps of a Verify, from the moment it has its challenge. */
  lemma {:induction false} TakenIsItsSteps(env: Env, s: System, id: nat)
    requires id in s.calls && s.calls[id].Taken? && s.calls[id].pending.challenge == s.calls[id].challenge
    ensures var c := s.calls[id];
            var s' := Finish(Check(s, id), env.verify, id);
            && s'.table == s.table && s'.services == s.services && id !in s'.calls
            && s'.accepted == s.accepted +
                 if !Expired(c.pending, s.clock) && c.pending.service in s.services
                    && SignatureAnswer(env, s.services[c.pending.service], c.challenge, c.signature).Ok?
                 then [Acceptance(id, c.challenge, c.serial, c.pending.service, s.clock,
                   s.services[c.pending.service])] else []
  {
    var c, s1 := s.calls[id], Check(s, id);
    if Expired(c.pending, s.clock) {
      assert id !in s1.calls && s1.accepted == s.accepted + [];
    } else {
      assert s1.calls[id] == Checked(c.challenge, c.signature, c.serial, c.pending.service, s.clock);
    }
  }

  /**
   The steps of a Verify that nobody disturbs give that answer: one more acceptance with the record, or none,
   and the challenge is gone.
   */
  lemma {:induction false} VerifyIsItsSteps(env: Env, s: System, id: nat, challenge: bytes, signature: bytes)
    requires Inv(s) && id !in s.started
    ensures var answer := VerifyAnswer(env, s.table, s.services, challenge, signature, s.clock);
            var s' := Finish(Check(Take(s, id, challenge, signature), id), env.verify, id);
            && s'.table == s.table - {ToHex(challenge)} && s'.services == s.services && id !in s'.calls
            && (answer.Err? ==> s'.accepted == s.accepted)
            && (answer.Ok? ==>
                  && |s'.accepted| == |s.accepted| + 1 && s.accepted <= s'.accepted
                  && var a := s'.accepted[|s.accepted|];
                     a.call == id && a.challenge == challenge && a.record == answer.value && a.checkedAt == s.clock)
  {
    var key, s1 := ToHex(challenge), Take(s, id, challenge, signature);
    if key in s.table {
      assert TableInv(s.table, s.ledger, key);
      HexInjective(challenge, s.table[key].challenge);
      TakenIsItsSteps(env, s1, id);
    } else {
      assert s.table - {key} == s.table;
      assert id !in s1.calls && Finish(Check(s1, id), env.verify, id) == s1;
    }
  }

  /** The two steps of an undisturbed GenerateChallenge file the challenge for a known service. */
  lemma {:induction false} GenerateIsItsSteps(env: Env, s: System, pruning: bool, id: nat, service: string,
                                              challenge: bytes)
    requires id !in s.generating
    ensures var s1 := Apply(s, env.verify, pruning, LookupForChallenge(id, service));
            var s2 := Apply(s1, env.verify, pruning, IssueChallenge(id, challenge));
            && s2.table == (if service in s.services then Insert(s.table, challenge, service, s.clock) else s.table)
            && s2.services == s.services && s2.accepted == s.accepted
  {
  }

  /** An undisturbed sweep removes what is expired now. */
  lemma {:induction false} SweepIsItsSteps(env: Env, s: System, id: nat)
    ensures var s1 := Apply(s, env.verify, true, StampSweep(id));
            Apply(s1, env.verify, true, RunSweep(id)).table == Sweep(s.table, s.clock)
  {
  }

  class Ed25519Auth {
    const db: DB
    const crypto: Crypto
    const env: Env
    var challenges: Table
    ghost var services: Services

    ghost predicate Valid()
      reads this, db
    {
      env.Lawful() && Represents(env, db.store, services) && Filed(challenges)
    }

    ghost predicate Reliable() {
      db.reliable && crypto.reliable
    }

    /** Opens a store that may hold services already. Challenges do not outlive the process. */
    constructor (db: DB, crypto: Crypto, env: Env, ghost stored: Services)
      requires env.Lawful() && Represents(env, db.store, stored)
      ensures Valid() && services == stored && challenges == map[]
      ensures this.db == db && this.crypto == crypto && this.env == env
    {
      this.db := db;
      this.crypto := crypto;
      this.env := env;
      challenges := map[];
      services := stored;
    }

    method GetService(name: string) returns (r: Result<ServiceRecord>)
      ensures r == FetchService(env, db.store, name) || (!Reliable() && r == Err(StorageFailure))
    {
      var data := db.Get("auth/services/" + name);
      if data.Err? {
        return Err(if data.error == NotFound then UnknownService else data.error);
      }
      match env.codec.unmarshal(data.value)
      case None => return Err(UnmarshalFailed);
      case Some(rec) => return Ok(rec);
    }

    method RegisterService(rec: ServiceRecord) returns (err: Option<Error>)
      requires Valid()
      modifies this, db
      ensures Valid() && challenges == old(challenges)
      ensures db.StaysBelow(SERVICE_ROOT) && db.expiring <= old(db.expiring)
      ensures err.None? ==> services == old(services)[rec.name :=
                ServiceRecord(env.json.text(rec.name), rec.publicKey, env.json.text(rec.policy))]
      ensures err.None? ==> env.codec.marshal(rec).Some?
      ensures err.None? ==>
          db.store == old(db.store)[ServiceKey(rec.name) := env.codec.marshal(rec).value]
      ensures err.Some? ==> services == old(services) && db.store == old(db.store) && !Reliable()
    {
      var data := env.codec.marshal(rec);
      if data.None? {
        return Some(MarshalFailed);
      }
      ServiceWritten(env, db.store, services, rec.name, data.value, StoredService(env.json, rec));
      assert SERVICE_ROOT <= ServiceKey(rec.name);
      err := db.Set("auth/services/" + rec.name, data.value);
      if err.None? {
        services := services[rec.name := StoredService(env.json, rec)];
      }
    }

    method DeleteService(name: string) returns (err: Option<Error>)
      requires Valid()
      modifies this, db
      ensures Valid() && challenges == old(challenges)
      ensures db.StaysBelow(SERVICE_ROOT) && db.expiring <= old(db.expiring)
      ensures err.None? ==> services == old(services) - {name} && db.store == old(db.store) - {ServiceKey(name)}
      ensures err.Some? ==> services == old(services) && db.store == old(db.store) && !Reliable()
    {
      ServiceRemoved(env, db.store, services, name);
      assert SERVICE_ROOT <= ServiceKey(name);
      err := db.Delete("auth/services/" + name);
      if err.None? {
        services := services - {name};
      }
    }

    /** A fresh challenge for a known service, filed with its expiry. Pruning is a separate call. */
    method GenerateChallenge(serviceName: string, now: Time) returns (r: Result<bytes>)
      requires Valid()
      modifies this
      ensures Valid() && services == old(services)
      ensures r.Ok? ==> serviceName in services && |r.value| == 32
                        && challenges == old(challenges)[ToHex(r.value) :=
                             Pending(r.value, serviceName, now + 60_000_000_000)]
      ensures r.Err? ==> challenges == old(challenges) && (serviceName !in services || !Reliable())
    {
      var svc := GetService(serviceName);
      assert ServiceHolds(env, db.store, services, serviceName);
      if svc.Err? {
        return Err(UnknownService);
      }
      var challenge := crypto.Random(CHALLENGE_LEN);
      if challenge.Err? {
        return Err(challenge.error);
      }
      var key := ToHex(challenge.value);
      challenges := challenges[key := Pending(challenge.value, serviceName, now + CHALLENGE_TTL)];
      return Ok(challenge.value);
    }

    /** Takes the challenge out of the table, whatever happens next. */
    method Verify(challenge: bytes, signature: bytes, now: Time) returns (r: Result<ServiceRecord>)
      requires Valid()
      modifies this
      ensures Valid() && services == old(services)
      ensures challenges == old(challenges) - {ToHex(challenge)}
      ensures r == VerifyAnswer(env, old(challenges), services, challenge, signature, now)
           || (!Reliable() && r == Err(StorageFailure))
      ensures ToHex(challenge) !in old(challenges) <==> r == Err(ChallengeUnknown)
      ensures r == Err(ChallengeExpired) <==>
                ToHex(challenge) in old(challenges) && now > old(challenges)[ToHex(challenge)].expiresAt
      ensures r.Ok? ==> && ToHex(challenge) in old(challenges) && now <= old(challenges)[ToHex(challenge)].expiresAt
                        && var name := old(challenges)[ToHex(challenge)].service;
                           && name in services && r.value == services[name] && |r.value.publicKey| == 32
                           && env.verify(r.value.publicKey, challenge, signature)
    {
      var key := ToHex(challenge);
      var known := key in challenges;
      var pc: Pending;
      if known {
        pc := challenges[key];
        challenges := challenges - {key};
      } else {
        pc := Pending([], "", 0);
        assert challenges - {key} == challenges;
      }
      if !known {
        return Err(ChallengeUnknown);
      }
      if now > pc.expiresAt {
        return Err(ChallengeExpired);
      }
      r := VerifyTaken(pc, challenge, signature);
      HexInjective(challenge, pc.challenge);
      assert ServiceHolds(env, db.store, services, pc.service);
    }

    /** The rest of Verify, after the expiry check: compare, look the service up, check the signature. */
    method VerifyTaken(pc: Pending, challenge: bytes, signature: bytes) returns (r: Result<ServiceRecord>)
      ensures r == (if pc.challenge != challenge then Err(ChallengeMismatch)
                    else match FetchService(env, db.store, pc.service)
                         case Err(e) => Err(e)
                         case Ok(svc) => SignatureAnswer(env, svc, challenge, signature))
           || (!Reliable() && r == Err(StorageFailure))
    {
      var same := Subtle32Equal(pc.challenge, challenge);
      if !same {
        return Err(ChallengeMismatch);
      }
      var svc := GetService(pc.service);
      if svc.Err? {
        return Err(svc.error);
      }
      if |svc.value.publicKey| != PUBLIC_KEY_LEN {
        return Err(BadPublicKey);
      }
      if !env.verify(svc.value.publicKey, challenge, signature) {
        return Err(BadSignature);
      }
      return Ok(svc.value);
    }

    /** The sweep: one pass over the table with the time stamp taken before it. */
    method PruneExpired(stamp: Time)
      requires Valid()
      modifies this
      ensures Valid() && services == old(services)
      ensures challenges == Sweep(old(challenges), stamp)
      ensures forall k :: k in challenges <==> k in old(challenges) && stamp <= old(challenges)[k].expiresAt
      ensures forall k :: k in challenges ==> challenges[k] == old(challenges)[k]
    {
      var keys := challenges.Keys;
      ghost var before := challenges;
      while keys != {}
        invariant keys <= before.Keys
        invariant services == old(services)
        invariant forall k :: k in challenges <==> k in before && (k in keys || !Expired(before[k], stamp))
        invariant forall k :: k in challenges ==> challenges[k] == before[k]
        decreases |keys|
      {
        var k :| k in keys;
        if stamp > challenges[k].expiresAt {
          challenges := challenges - {k};
        }
        keys := keys - {k};
      }
    }
  }
}
