/** Session records in the byte store, under a key that hides the token. */
module SessionStore {
  import opened Wrappers
  import opened Json
  import opened Database
  import opened Crypto
  import opened Session
  import Base64

  const TOKEN_LEN: nat := 32

  type Sessions = map<string, SessionMeta>

  /** The store holds exactly these session records; each key is the full store key. */
  ghost predicate Represents(codec: Codec<SessionMeta>, store: map<string, bytes>, sessions: Sessions) {
    forall k :: SESSION_ROOT <= k ==>
      (k in store <==> k in sessions) && (k in store ==> codec.unmarshal(store[k]) == Some(sessions[k]))
  }

  /** What the other engines do to their part of the store does not matter. */
  lemma {:induction false} OnlyOwnKeysCount(codec: Codec<SessionMeta>, store: map<string, bytes>,
                                            store': map<string, bytes>, sessions: Sessions)
    requires Represents(codec, store, sessions) && SameBelow(store, store', SESSION_ROOT)
    ensures Represents(codec, store', sessions)
  {
  }

  /** The prefix and the URL-safe base64 text of 32 bytes. */
  function TokenOf(raw: bytes): Token {
    TOKEN_PREFIX + Base64.RawURLEncode(raw)
  }

  ghost predicate IsToken(token: Token) {
    exists raw :: |raw| == 32 && token == TokenOf(raw)
  }

  /** Different random bytes make different tokens, each `lvt_` and 43 more characters long. */
  lemma {:induction false} TokensDiffer(a: bytes, b: bytes)
    ensures TokenOf(a) == TokenOf(b) <==> a == b
    ensures |a| == 32 ==> |TokenOf(a)| == 47
    ensures HasPrefix(TokenOf(a)) && |TokenOf(a)| >= 4
    ensures forall i :: 0 <= i < 4 ==> TokenOf(a)[i] as int == "lvt_"[i] as int
  {
    if TokenOf(a) == TokenOf(b) {
      assert Base64.RawURLEncode(a) == TokenOf(a)[|TOKEN_PREFIX|..] == TokenOf(b)[|TOKEN_PREFIX|..] ==
          Base64.RawURLEncode(b);
      Base64.RawURLInjective(a, b);
    }
    assert TokenOf(a)[..4] == TOKEN_PREFIX;
    assert TokenOf(a)[0] == TOKEN_PREFIX[0] && TokenOf(a)[1] == TOKEN_PREFIX[1];
    assert TokenOf(a)[2] == TOKEN_PREFIX[2] && TokenOf(a)[3] == TOKEN_PREFIX[3];
  }

  /** One more session: this token, hashed under this salt, with this metadata. */
  ghost predicate IssuedUnder(env: Session.Env, before: Sessions, after: Sessions, token: Token,
                              identity: string, authMethod: string, policy: string, salt: bytes, now: Time) {
    && |salt| == SALT_LEN
    && after == before[SessionKey(env, token) :=
         StoredMeta(env.json, FreshMeta(env, token, identity, authMethod, policy, salt, now))]
  }

  /** What Issue may answer and leave behind: a new token and its record, or an error and no change. */
  ghost predicate IssueOutcome(env: Session.Env, reliable: bool, before: Sessions, after: Sessions, identity: string,
                               authMethod: string, policy: string, now: Time, r: Result<Token>)
  {
    match r
    case Ok(token) =>
      && IsToken(token)
      && (exists salt :: IssuedUnder(env, before, after, token, identity, authMethod, policy, salt, now))
      && SessionKey(env, token) in after
      && var meta := after[SessionKey(env, token)];
         && meta.identity == env.json.text(identity) && meta.authMethod == env.json.text(authMethod)
         && meta.policy == env.json.text(policy)
         && meta.issuedAt == now && meta.expiresAt == now + env.ttl
         && |meta.tokenHash| == 64 && HashMatches(env.prims, token, meta.tokenHash)
    case Err(_) => after == before && !reliable
  }

  /** What Validate may answer and leave behind: only an expired record goes, and on a reliable store it does go. */
  ghost predicate ValidateOutcome(env: Session.Env, reliable: bool, before: Sessions, after: Sessions, token: Token,
                                  now: Time, r: Result<SessionMeta>)
  {
    && (r == ValidateAnswer(env, before, token, now) || (!reliable && r == Err(StorageFailure)))
    && (after == before || (r == Err(SessionExpired) && after == before - {SessionKey(env, token)}))
    && (r == Err(SessionExpired) && reliable ==> after == before - {SessionKey(env, token)})
  }

  class SessionStore {
    const db: DB
    const crypto: Crypto
    const env: Session.Env
    const codec: Codec<SessionMeta>
    ghost var sessions: Sessions

    ghost predicate Valid()
      reads this, db
    {
      && env.prims.HashLength() && crypto.prims == env.prims
      && codec.ReadsBack(m => Some(StoredMeta(env.json, m)))
      && Represents(codec, db.store, sessions)
      && (forall k :: k in sessions ==> SESSION_ROOT <= k && k in db.expiring)
    }

    ghost predicate Reliable() {
      db.reliable && crypto.reliable
    }

    /** Opens a store that may hold sessions already; all of them were written with a time to live. */
    constructor (db: DB, crypto: Crypto, env: Session.Env, codec: Codec<SessionMeta>, ghost stored: Sessions)
      requires env.prims.HashLength() && crypto.prims == env.prims &&
          codec.ReadsBack(m => Some(StoredMeta(env.json, m)))
      requires Represents(codec, db.store, stored) && forall k :: k in stored ==> SESSION_ROOT <= k && k in db.expiring
      ensures Valid() && sessions == stored
      ensures this.db == db && this.crypto == crypto && this.env == env && this.codec == codec
    {
      this.db := db;
      this.crypto := crypto;
      this.env := env;
      this.codec := codec;
      sessions := stored;
    }

    /** A session record whose time to live is over disappears, without any call. */
    method Vanish(key: string)
      requires Valid() && key in db.expiring && SESSION_ROOT <= key
      modifies this, db
      ensures Valid() && db.StaysBelow(SESSION_ROOT)
      ensures sessions == old(sessions) - {key}
    {
      db.Vanish(key);
      sessions := sessions - {key};
    }

    /** A new token and its record. The record holds a salted hash of the token, and its key an unsalted one. */
    method Issue(identity: string, authMethod: string, policy: string, now: Time) returns (r: Result<Token>)
      requires Valid()
      modifies this, db
      ensures Valid() && db.StaysBelow(SESSION_ROOT)
      ensures IssueOutcome(env, Reliable(), old(sessions), sessions, identity, authMethod, policy, now, r)
      ensures r.Ok? ==> SessionKey(env, r.value) in db.expiring
    {
      var raw := crypto.Random(TOKEN_LEN);
      if raw.Err? {
        return Err(raw.error);
      }
      var token := TOKEN_PREFIX + Base64.RawURLEncode(raw.value);
      var hash := crypto.HashArgon2id(token);
      if hash.Err? {
        return Err(hash.error);
      }
      var meta := SessionMeta(identity, authMethod, policy, now, now + env.ttl, hash.value);
      ghost var salt := hash.value[..SALT_LEN];
      assert meta == FreshMeta(env, token, identity, authMethod, policy, salt, now);
      var data := codec.marshal(meta);
      if data.None? {
        return Err(MarshalFailed);
      }
      var key := SessionKey(env, token);
      assert SESSION_ROOT <= key;
      var err := db.SetWithTTL(key, data.value, env.ttl);
      if err.Some? {
        return Err(err.value);
      }
      sessions := sessions[key := StoredMeta(env.json, meta)];
      assert token == TokenOf(raw.value);
      assert IssuedUnder(env, old(sessions), sessions, token, identity, authMethod, policy, salt, now);
      return Ok(token);
    }

    /** Validate answers from the record; an expired record is deleted on the way (and that may fail unnoticed). */
    method Validate(token: Token, now: Time) returns (r: Result<SessionMeta>)
      requires Valid()
      modifies this, db
      ensures Valid() && db.StaysBelow(SESSION_ROOT)
      ensures ValidateOutcome(env, Reliable(), old(sessions), sessions, token, now, r)
    {
      if |token| < |TOKEN_PREFIX| || token[..|TOKEN_PREFIX|] != TOKEN_PREFIX {
        return Err(BadTokenFormat);
      }
      var key := SessionKey(env, token);
      assert SESSION_ROOT <= key;
      var data := db.Get(key);
      if data.Err? {
        return Err(if data.error == NotFound then SessionNotFound else data.error);
      }
      r := Judge(token, data.value, now);
      if r == Err(SessionExpired) {
        var err := db.Delete(key);
        if err.None? {
          sessions := sessions - {key};
        }
      }
    }

    /** The part of Validate that looks at the record. */
    method Judge(token: Token, data: bytes, now: Time) returns (r: Result<SessionMeta>)
      ensures r == match codec.unmarshal(data)
                   case None => Err(UnmarshalFailed)
                   case Some(meta) =>
                     if !HashMatches(crypto.prims, token, meta.tokenHash) then Err(SessionInvalid)
                     else if now > meta.expiresAt then Err(SessionExpired)
                     else Ok(meta)
    {
      match codec.unmarshal(data)
      case None => return Err(UnmarshalFailed);
      case Some(meta) =>
        var ok := crypto.VerifyArgon2id(token, meta.tokenHash);
        if !ok {
          return Err(SessionInvalid);
        }
        if now > meta.expiresAt {
          return Err(SessionExpired);
        }
        return Ok(meta);
    }

    method Revoke(token: Token) returns (err: Option<Error>)
      requires Valid()
      modifies this, db
      ensures Valid() && db.StaysBelow(SESSION_ROOT)
      ensures err.None? ==> sessions == old(sessions) - {SessionKey(env, token)}
      ensures err.Some? ==> sessions == old(sessions) && !Reliable()
    {
      assert SESSION_ROOT <= SessionKey(env, token);
      err := db.Delete(SessionKey(env, token));
      if err.None? {
        sessions := sessions - {SessionKey(env, token)};
      }
    }
  }
}
