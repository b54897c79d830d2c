/**
 Session tokens as a transition system over the session records: issuing, revoking, records that vanish
 when their time to live is over (or earlier), and Validate calls that run in separate steps.
 */
module Session {
  import opened Wrappers
  import opened Hex
  import opened Json
  import opened Crypto

  type Token = bytes

  const TOKEN_PREFIX: bytes := [0x6c, 0x76, 0x74, 0x5f]  // "lvt_"
  const SESSION_ROOT := "auth/sessions/"

  datatype SessionMeta = SessionMeta(
    identity: string,
    authMethod: string,
    policy: string,
    issuedAt: Time,
    expiresAt: Time,
    tokenHash: bytes)

  /**
   The hash primitives, SHA-256 and JSON, and the configured lifetime. `tokens` are the tokens that are ever
   issued or presented; the salted hash is assumed not to collide on them.
   */
  datatype Env = Env(prims: Primitives, sha: bytes -> bytes, json: JsonView, ttl: nat, tokens: set<Token>) {
    ghost predicate Lawful() {
      prims.HashLength() && prims.CollisionFree(tokens)
    }
  }

  function SessionKey(env: Env, token: Token): string {
    SESSION_ROOT + ToHex(env.sha(token))
  }

  function FreshMeta(env: Env, token: Token, identity: string, authMethod: string, policy: string, salt: bytes,
                     now: Time): SessionMeta
  {
    SessionMeta(identity, authMethod, policy, now, now + env.ttl, HashLayout(env.prims, token, salt))
  }

  /** What the metadata becomes when it is written as JSON and read back. */
  function StoredMeta(j: JsonView, m: SessionMeta): SessionMeta {
    m.(identity := j.text(m.identity), authMethod := j.text(m.authMethod), policy := j.text(m.policy))
  }

  predicate HasPrefix(token: Token) {
    TOKEN_PREFIX <= token
  }

  // ---- the system ----

  datatype Event =
    | Issued(token: Token, identity: string, authMethod: string, policy: string, at: Time, meta: SessionMeta)
    | Revoked(token: Token)

  /** A running Validate: it has loaded a record, or found it expired and is about to delete it. */
  datatype Call =
    | Loaded(token: Token, meta: SessionMeta, issue: nat, readAt: nat)
    | Dropping(key: string)

  /** `issue` is the position of the issue in the log, `readAt` the length of the log when the record was read. */
  datatype Success = Success(token: Token, meta: SessionMeta, issue: nat, readAt: nat, checkedAt: Time)

  datatype System = System(
    clock: Time,
    store: map<string, SessionMeta>,
    calls: map<nat, Call>,
    successes: seq<Success>,
    // bookkeeping that no action depends on
    log: seq<Event>,
    born: map<string, nat>)

  /** An issue may carry a time stamp that is `age` old by the time the record is written. */
  datatype Action =
    | Tick(elapsed: nat)
    | Issue(token: Token, identity: string, authMethod: string, policy: string, salt: bytes, age: nat)
    | Revoke(token: Token)
    | Vanish(key: string)
    | Load(id: nat, token: Token)
    | Check(id: nat)
    | Drop(id: nat)
    | GiveUp(id: nat)

  predicate Proper(env: Env, a: Action) {
    && (a.Issue? ==> |a.salt| == SALT_LEN && a.token in env.tokens)
    && (a.Load? ==> a.token in env.tokens)
  }

  function IssueSession(env: Env, s: System, a: Action): System
    requires a.Issue?
  {
    var key := SessionKey(env, a.token);
    var meta := StoredMeta(env.json,
        FreshMeta(env, a.token, a.identity, a.authMethod, a.policy, a.salt, s.clock - a.age));
    s.(store := s.store[key := meta],
       log := s.log + [Issued(a.token, a.identity, a.authMethod, a.policy, s.clock - a.age, meta)],
       born := s.born[key := |s.log|])
  }

  function LoadSession(env: Env, s: System, id: nat, token: Token): System {
    var key := SessionKey(env, token);
    if !HasPrefix(token) || key !in s.store then s.(calls := s.calls - {id})
    else s.(calls := s.calls[id := Loaded(token, s.store[key], if key in s.born then s.born[key] else 0, |s.log|)])
  }

  function CheckSession(env: Env, s: System, id: nat): System {
    if id !in s.calls || !s.calls[id].Loaded? then s
    else
      var c := s.calls[id];
      if !HashMatches(env.prims, c.token, c.meta.tokenHash) then s.(calls := s.calls - {id})
      else if s.clock > c.meta.expiresAt then s.(calls := s.calls[id := Dropping(SessionKey(env, c.token))])
      else s.(calls := s.calls - {id},
        successes := s.successes + [Success(c.token, c.meta, c.issue, c.readAt, s.clock)])
  }

  function Apply(env: Env, s: System, a: Action): System {
    match a
    case Tick(elapsed) => s.(clock := s.clock + elapsed)
    case Issue(_, _, _, _, _, _) => IssueSession(env, s, a)
    case Revoke(token) => s.(store := s.store - {SessionKey(env, token)}, log := s.log + [Revoked(token)])
    case Vanish(key) => s.(store := s.store - {key})
    case Load(id, token) => LoadSession(env, s, id, token)
    case Check(id) => CheckSession(env, s, id)
    case Drop(id) =>
      if id in s.calls && s.calls[id].Dropping? then s.(store := s.store - {s.calls[id].key}, calls := s.calls - {id})
        else s
    case GiveUp(id) => s.(calls := s.calls - {id})
  }

  function Run(env: Env, s: System, actions: seq<Action>): System
    decreases |actions|
  {
    if actions == [] then s else Run(env, Apply(env, s, actions[0]), actions[1..])
  }

  function Start(now: Time): System {
    System(now, map[], map[], [], [], map[])
  }

  // ---- the invariant ----

  /** The record `meta` was written by issue number `issue`, and not revoked in the log before position `until`. */
  ghost predicate Backed(env: Env, log: seq<Event>, key: string, meta: SessionMeta, issue: nat, until: nat) {
    && issue < until <= |log|
    && log[issue].Issued?
    && var e := log[issue];
       && SessionKey(env, e.token) == key
       && e.meta == meta
       && meta.identity == env.json.text(e.identity) && meta.authMethod == env.json.text(e.authMethod)
       && meta.policy == env.json.text(e.policy) && meta.issuedAt == e.at && meta.expiresAt == e.at + env.ttl
       && (forall other :: other in env.tokens ==>
            (HashMatches(env.prims, other, meta.tokenHash) <==> other == e.token))
       && (forall m :: issue < m < until ==> log[m] != Revoked(e.token))
  }

  ghost predicate StoreInv(env: Env, s: System, key: string) {
    key in s.store ==> key in s.born && Backed(env, s.log, key, s.store[key], s.born[key], |s.log|)
  }

  ghost predicate CallInv(env: Env, s: System, id: nat) {
    id in s.calls && s.calls[id].Loaded? ==>
      var c := s.calls[id];
      c.token in env.tokens && HasPrefix(c.token) &&
        Backed(env, s.log, SessionKey(env, c.token), c.meta, c.issue, c.readAt)
  }

  /**
   The answer of a successful Validate: this very token was issued with this metadata, not too long ago, and
   not revoked before the record was read.
   */
  ghost predicate Sound(env: Env, log: seq<Event>, x: Success) {
    && HasPrefix(x.token) && x.issue < x.readAt <= |log|
    && log[x.issue].Issued? && log[x.issue].token == x.token && log[x.issue].meta == x.meta
    && x.meta.identity == env.json.text(log[x.issue].identity)
    && x.meta.authMethod == env.json.text(log[x.issue].authMethod)
    && x.meta.policy == env.json.text(log[x.issue].policy)
    && x.meta.issuedAt == log[x.issue].at && x.checkedAt <= log[x.issue].at + env.ttl
    && (forall m :: x.issue < m < x.readAt ==> log[m] != Revoked(x.token))
  }

  ghost predicate Inv(env: Env, s: System) {
    && (forall key :: StoreInv(env, s, key))
    && (forall id: nat :: CallInv(env, s, id))
    && (forall i :: 0 <= i < |s.successes| ==> Sound(env, s.log, s.successes[i]))
  }

  /** A longer log backs what the shorter one backed. */
  lemma {:induction false} LogGrows(env: Env, s: System, s': System)
    requires Inv(env, s) && s.log <= s'.log
    requires s'.successes == s.successes
    requires forall id :: id in s'.calls && s'.calls[id].Loaded? ==> id in s.calls && s'.calls[id] == s.calls[id]
    ensures forall id: nat :: CallInv(env, s', id)
    ensures forall i :: 0 <= i < |s'.successes| ==> Sound(env, s'.log, s'.successes[i])
  {
    forall id: nat ensures CallInv(env, s', id) { assert CallInv(env, s, id); }
  }

  /** Taking records away and ending calls keeps the invariant. */
  lemma {:induction false} LessKeeps(env: Env, s: System, s': System)
    requires Inv(env, s) && s'.log == s.log && s'.born == s.born && s'.successes == s.successes
    requires forall k :: k in s'.store ==> k in s.store && s'.store[k] == s.store[k]
    requires forall id :: id in s'.calls && s'.calls[id].Loaded? ==> id in s.calls && s'.calls[id] == s.calls[id]
    ensures Inv(env, s')
  {
    forall key ensures StoreInv(env, s', key) { assert StoreInv(env, s, key); }
    LogGrows(env, s, s');
  }

  lemma {:induction false} IssueKeeps(env: Env, s: System, a: Action)
    requires env.Lawful() && Inv(env, s) && a.Issue? && Proper(env, a)
    ensures Inv(env, IssueSession(env, s, a))
  {
    var s' := IssueSession(env, s, a);
    LogGrows(env, s, s');
    forall other | other in env.tokens
      ensures HashMatches(env.prims, other, HashLayout(env.prims, a.token, a.salt)) <==> other == a.token
    {
      HashAcceptsOnlyIts(env.prims, env.tokens, a.token, other, a.salt);
    }
    forall key ensures StoreInv(env, s', key) { assert StoreInv(env, s, key); }
  }

  lemma {:induction false} RevokeKeeps(env: Env, s: System, token: Token)
    requires Inv(env, s)
    ensures Inv(env, Apply(env, s, Revoke(token)))
  {
    var s' := Apply(env, s, Revoke(token));
    LogGrows(env, s, s');
    forall key ensures StoreInv(env, s', key) { assert StoreInv(env, s, key); }
  }

  lemma {:induction false} LoadKeeps(env: Env, s: System, id: nat, token: Token)
    requires Inv(env, s) && token in env.tokens
    ensures Inv(env, LoadSession(env, s, id, token))
  {
    var s' := LoadSession(env, s, id, token);
    assert StoreInv(env, s, SessionKey(env, token));
    forall key ensures StoreInv(env, s', key) { assert StoreInv(env, s, key); }
    forall other: nat ensures CallInv(env, s', other) { assert CallInv(env, s, other); }
  }

  lemma {:induction false} SuccessSound(env: Env, s: System, id: nat)
    requires CallInv(env, s, id) && id in s.calls && s.calls[id].Loaded?
    requires var c := s.calls[id];
             c.readAt <= |s.log| && HashMatches(env.prims, c.token, c.meta.tokenHash) && s.clock <= c.meta.expiresAt
    ensures var c := s.calls[id];
            Sound(env, s.log, Success(c.token, c.meta, c.issue, c.readAt, s.clock))
  {
  }

  lemma {:induction false} CheckKeeps(env: Env, s: System, id: nat)
    requires Inv(env, s)
    ensures Inv(env, CheckSession(env, s, id))
  {
    var s' := CheckSession(env, s, id);
    assert CallInv(env, s, id);
    if s'.successes != s.successes {
      SuccessSound(env, s, id);
      LessKeeps(env, s, s'.(successes := s.successes));
      forall key ensures StoreInv(env, s', key) { assert StoreInv(env, s'.(successes := s.successes), key); }
      forall other: nat ensures CallInv(env, s', other) { assert CallInv(env, s'.(successes := s.successes), other); }
    } else {
      LessKeeps(env, s, s');
    }
  }

  lemma {:induction false} ApplyKeeps(env: Env, s: System, a: Action)
    requires env.Lawful() && Inv(env, s) && Proper(env, a)
    ensures Inv(env, Apply(env, s, a))
  {
    match a {
      case Issue(_, _, _, _, _, _) => IssueKeeps(env, s, a);
      case Revoke(token) => RevokeKeeps(env, s, token);
      case Load(id, token) => LoadKeeps(env, s, id, token);
      case Check(id) => CheckKeeps(env, s, id);
      case _ => LessKeeps(env, s, Apply(env, s, a));
    }
  }

  lemma {:induction false} RunKeeps(env: Env, s: System, actions: seq<Action>)
    requires env.Lawful() && Inv(env, s) && forall i :: 0 <= i < |actions| ==> Proper(env, actions[i])
    ensures Inv(env, Run(env, s, actions))
    decreases |actions|
  {
    if actions != [] {
      ApplyKeeps(env, s, actions[0]);
      RunKeeps(env, Apply(env, s, actions[0]), actions[1..]);
    }
  }

  /** In every run, every successful Validate is sound. */
  lemma {:induction false} SessionSoundness(env: Env, s: System, now: Time, actions: seq<Action>)
    requires env.Lawful() && s == Run(env, Start(now), actions)
    requires forall i :: 0 <= i < |actions| ==> Proper(env, actions[i])
    ensures forall i :: 0 <= i < |s.successes| ==> Sound(env, s.log, s.successes[i])
  {
    RunKeeps(env, Start(now), actions);
  }

  /**
   In every run: a success whose record was read after a revocation of its token means that the token was
   issued again in between.
   */
  lemma {:induction false} RevokedUntilReissued(env: Env, s: System, now: Time, actions: seq<Action>, i: nat, r: nat)
    requires env.Lawful() && s == Run(env, Start(now), actions)
    requires forall n :: 0 <= n < |actions| ==> Proper(env, actions[n])
    requires i < |s.successes| && r < |s.log|
    requires r < s.successes[i].readAt && s.log[r] == Revoked(s.successes[i].token)
    ensures s.successes[i].readAt <= |s.log|
    ensures exists k :: r < k < s.successes[i].readAt && s.log[k].Issued? && s.log[k].token == s.successes[i].token
  {
    SessionSoundness(env, s, now, actions);
    var x := s.successes[i];
    assert Sound(env, s.log, x);
    assert r < x.issue < x.readAt && s.log[x.issue].Issued? && s.log[x.issue].token == x.token;
  }

  /**
   A live session validates: its token is accepted with its metadata as long as its record is there and its
   time is not over.
   */
  lemma {:induction false} LiveSessionValidates(env: Env, s: System, id: nat, token: Token, elapsed: nat)
    requires env.Lawful() && Inv(env, s) && HasPrefix(token) && token in env.tokens
    requires var key := SessionKey(env, token);
             && key in s.store && key in s.born && s.born[key] < |s.log| && s.log[s.born[key]].token == token
             && s.clock + elapsed <= s.store[key].expiresAt
    ensures var s1 := Apply(env, s, Load(id, token));
            var s2 := Apply(env, Apply(env, s1, Tick(elapsed)), Check(id));
            && |s2.successes| == |s.successes| + 1
            && s2.successes[|s.successes|].meta == s.store[SessionKey(env, token)]
            && s2.successes[|s.successes|].token == token
  {
    assert StoreInv(env, s, SessionKey(env, token));
  }

  /** What a Validate that runs alone must answer. */
  function ValidateAnswer(env: Env, sessions: map<string, SessionMeta>, token: Token, now: Time): Result<SessionMeta> {
    var key := SessionKey(env, token);
    if !HasPrefix(token) then Err(BadTokenFormat)
    else if key !in sessions then Err(SessionNotFound)
    else if !HashMatches(env.prims, token, sessions[key].tokenHash) then Err(SessionInvalid)
    else if now > sessions[key].expiresAt then Err(SessionExpired)
    else Ok(sessions[key])
  }

  /**
   Which token is refused with which error: one that does not begin with `lvt_`, one without a record, one
   that the hash in the record does not accept, and one whose time is over.
   */
  lemma {:induction false} RefusedTokens(env: Env, sessions: map<string, SessionMeta>, token: Token, now: Time)
    ensures var r, key := ValidateAnswer(env, sessions, token, now), SessionKey(env, token);
            var lvt := |token| >= 4 && token[..4] == [0x6c, 0x76, 0x74, 0x5f];
            && (!lvt <==> r == Err(BadTokenFormat))
            && (lvt && key !in sessions <==> r == Err(SessionNotFound))
            && (r == Err(SessionInvalid) <==>
                  lvt && key in sessions && !HashMatches(env.prims, token, sessions[key].tokenHash))
            && (r == Err(SessionExpired) <==>
                  && lvt && key in sessions && HashMatches(env.prims, token, sessions[key].tokenHash)
                  && now > sessions[key].expiresAt)
            && (r.Ok? ==> r.value == sessions[key])
  {
    assert HasPrefix(token) <==> |token| >= 4 && token[..4] == TOKEN_PREFIX;
  }

  /** A Validate that has loaded a record, and then runs on undisturbed. */
  lemma {:induction false} LoadedIsItsSteps(env: Env, s: System, id: nat)
    requires id in s.calls && s.calls[id].Loaded?
    ensures var c := s.calls[id];
            var s' := Apply(env, Apply(env, s, Check(id)), Drop(id));
            && id !in s'.calls && s'.clock == s.clock && s'.log == s.log
            && s'.store == (if HashMatches(env.prims, c.token, c.meta.tokenHash) && s.clock > c.meta.expiresAt
                            then s.store - {SessionKey(env, c.token)} else s.store)
            && s'.successes == s.successes +
                 if HashMatches(env.prims, c.token, c.meta.tokenHash) && s.clock <= c.meta.expiresAt
                 then [Success(c.token, c.meta, c.issue, c.readAt, s.clock)] else []
  {
    var c, s1 := s.calls[id], CheckSession(env, s, id);
    if HashMatches(env.prims, c.token, c.meta.tokenHash) && s.clock > c.meta.expiresAt {
      assert s1.calls[id] == Dropping(SessionKey(env, c.token));
    } else {
      assert id !in s1.calls;
    }
    assert s.successes + [] == s.successes;
  }

  /**
   The steps of a Validate that nobody disturbs give that answer: one more success with the record, or none,
   and an expired record is gone.
   */
  lemma {:induction false} ValidateIsItsSteps(env: Env, s: System, id: nat, token: Token)
    ensures var answer := ValidateAnswer(env, s.store, token, s.clock);
            var s' := Apply(env, Apply(env, LoadSession(env, s, id, token), Check(id)), Drop(id));
            && id !in s'.calls && s'.clock == s.clock && s'.log == s.log
            && s'.store == (if answer == Err(SessionExpired) then s.store - {SessionKey(env, token)} else s.store)
            && (answer.Err? ==> s'.successes == s.successes)
            && (answer.Ok? ==>
                  && |s'.successes| == |s.successes| + 1 && s.successes <= s'.successes
                  && var x := s'.successes[|s.successes|];
                     x.token == token && x.meta == answer.value && x.readAt == |s.log| && x.checkedAt == s.clock)
  {
    var s1 := LoadSession(env, s, id, token);
    if HasPrefix(token) && SessionKey(env, token) in s.store {
      LoadedIsItsSteps(env, s1, id);
    } else {
      assert id !in s1.calls && Apply(env, s1, Check(id)) == s1 && Apply(env, s1, Drop(id)) == s1;
    }
  }

  /**
   After an issue at time `now`, and until the lifetime is over, exactly the issued token answers, with what it
   was issued with; afterwards it answers as expired.
   */
  lemma {:induction false} IssuedTokenValidates(env: Env, sessions: map<string, SessionMeta>, token: Token,
                                                identity: string, authMethod: string, policy: string, salt: bytes,
                                                now: Time, other: Token, later: Time)
    requires env.Lawful() && |salt| == SALT_LEN && token in env.tokens && other in env.tokens
    requires HasPrefix(token) && HasPrefix(other) && SessionKey(env, other) == SessionKey(env, token)
    ensures var meta := StoredMeta(env.json, FreshMeta(env, token, identity, authMethod, policy, salt, now));
            ValidateAnswer(env, sessions[SessionKey(env, token) := meta], other, later) ==
              if other != token then Err(SessionInvalid)
              else if later > now + env.ttl then Err(SessionExpired)
              else Ok(SessionMeta(env.json.text(identity), env.json.text(authMethod), env.json.text(policy),
                                  now, now + env.ttl, HashLayout(env.prims, token, salt)))
  {
    HashAcceptsOnlyIts(env.prims, env.tokens, token, other, salt);
  }

  /** The same in the transition system: a token that is issued, loaded and checked later. */
  lemma {:induction false} IssuedThenValidated(env: Env, s: System, a: Action, id: nat, elapsed: nat)
    requires env.Lawful() && a.Issue? && |a.salt| == SALT_LEN && HasPrefix(a.token)
    ensures var s1 := Apply(env, Apply(env, s, a), Load(id, a.token));
            var s2 := Apply(env, Apply(env, s1, Tick(elapsed)), Check(id));
            && (a.age + elapsed > env.ttl ==> s2.successes == s.successes)
            && (a.age + elapsed <= env.ttl ==>
                  && |s2.successes| == |s.successes| + 1 && s.successes <= s2.successes
                  && var x := s2.successes[|s.successes|];
                     && x.token == a.token && x.checkedAt == s.clock + elapsed
                     && x.meta.identity == env.json.text(a.identity) && x.meta.policy == env.json.text(a.policy)
                     && x.meta.authMethod == env.json.text(a.authMethod)
                     && x.meta.issuedAt == s.clock - a.age && x.meta.expiresAt == s.clock - a.age + env.ttl)
  {
    HashAcceptsOnlyIts(env.prims, {}, a.token, a.token, a.salt);
  }

  /** Where a session is stored, by its characters: under the hexadecimal digits of the hash of its token. */
  lemma {:induction false} SessionKeyText(env: Env, token: Token, i: nat)
    requires i < |env.sha(token)|
    ensures var key := SessionKey(env, token);
            && |key| == 14 + 2 * |env.sha(token)| && key[..14] == "auth/sessions/"
            && key[14 + 2 * i] == "0123456789abcdef"[env.sha(token)[i] as int / 16]
            && key[15 + 2 * i] == "0123456789abcdef"[env.sha(token)[i] as int % 16]
  {
    HexByIndex(env.sha(token), i);
  }
}
