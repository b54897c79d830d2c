/**
 The challenge protocol as a transition system. An action is one atomic piece of a call: a section under
 the mutex, a reading of the clock, or one access to the service records. Calls, sweeps, registrations and
 the clock interleave freely.
 */
module Challenge {
  import opened Wrappers
  import opened Hex

  const CHALLENGE_TTL: Time := 60_000_000_000  // nanoseconds

  datatype ServiceRecord = ServiceRecord(name: string, publicKey: bytes, policy: string)

  datatype Pending = Pending(challenge: bytes, service: string, expiresAt: Time)

  /** Pending challenges, keyed by the challenge in hexadecimal. */
  type Table = map<string, Pending>

  function Insert(t: Table, challenge: bytes, service: string, now: Time): Table {
    t[ToHex(challenge) := Pending(challenge, service, now + CHALLENGE_TTL)]
  }

  predicate Expired(p: Pending, now: Time) {
    now > p.expiresAt
  }

  function Sweep(t: Table, stamp: Time): Table {
    map k | k in t && !Expired(t[k], stamp) :: t[k]
  }

  /** A sweep removes exactly what is past its time at the stamp. */
  lemma {:induction false} SweepMeans(t: Table, stamp: Time, key: string)
    ensures key in Sweep(t, stamp) <==> key in t && stamp <= t[key].expiresAt
    ensures key in Sweep(t, stamp) ==> Sweep(t, stamp)[key] == t[key]
  {
  }

  // ---- the system ----

  /** A challenge that was handed out. Its position in the log is its serial number. */
  datatype Issue = Issue(challenge: bytes, service: string, at: Time)

  /** A Verify call that has taken its challenge out of the table. */
  datatype Call =
    | Taken(challenge: bytes, signature: bytes, serial: nat, pending: Pending)
    | Checked(challenge: bytes, signature: bytes, serial: nat, service: string, checkedAt: Time)

  /** A Verify call that has answered with a record. */
  datatype Acceptance = Acceptance(call: nat, challenge: bytes, serial: nat, service: string, checkedAt: Time,
                                   record: ServiceRecord)

  /** Where an issued challenge has got to. */
  datatype Place = InTable(key: string) | InCall(call: nat) | Accepted(index: nat)

  /** Bookkeeping that no action depends on: what was handed out, and where it is now. */
  datatype Ledger = Ledger(issued: seq<Issue>, born: map<string, nat>, place: map<nat, Place>)

  type Calls = map<nat, Call>

  datatype System = System(
    clock: Time,
    services: map<string, ServiceRecord>,
    generating: map<nat, string>,
    table: Table,
    calls: Calls,
    started: set<nat>,
    sweeps: map<nat, Time>,
    accepted: seq<Acceptance>,
    ledger: Ledger)

  /** Records may be filed under a name they do not carry: TOTP records are, and names that JSON changes. */
  datatype Action =
    | Tick(elapsed: nat)
    | Register(name: string, record: ServiceRecord)
    | Unregister(name: string)
    | LookupForChallenge(id: nat, service: string)
    | IssueChallenge(id: nat, challenge: bytes)
    | TakeChallenge(id: nat, challenge: bytes, signature: bytes)
    | CheckExpiry(id: nat)
    | LookupAndVerify(id: nat)
    | GiveUp(id: nat)
    | StampSweep(id: nat)
    | RunSweep(id: nat)

  /** ed25519.Verify(publicKey, message, signature). */
  type Verifier = (bytes, bytes, bytes) -> bool

  /** Keys of any other length cannot verify anything: there the library call stops with a panic. */
  const PUBLIC_KEY_LEN: nat := 32

  predicate Signed(verify: Verifier, record: ServiceRecord, challenge: bytes, signature: bytes) {
    |record.publicKey| == PUBLIC_KEY_LEN && verify(record.publicKey, challenge, signature)
  }

  function RecordIssue(l: Ledger, challenge: bytes, service: string, now: Time): Ledger {
    var serial, key := |l.issued|, ToHex(challenge);
    Ledger(l.issued + [Issue(challenge, service, now)], l.born[key := serial], l.place[serial := InTable(key)])
  }

  function Move(l: Ledger, serial: nat, place: Place): Ledger {
    l.(place := l.place[serial := place])
  }

  function SerialOf(l: Ledger, key: string): nat {
    if key in l.born then l.born[key] else 0
  }

  function Issued(s: System, challenge: bytes, service: string): System {
    s.(table := Insert(s.table, challenge, service, s.clock),
       ledger := RecordIssue(s.ledger, challenge, service, s.clock))
  }

  /** The section of Verify under the mutex: look up and delete. Every call has its own id. */
  function Take(s: System, id: nat, challenge: bytes, signature: bytes): System {
    var key := ToHex(challenge);
    if id in s.started then s
    else if key !in s.table then s.(started := s.started + {id})
    else
      var serial := SerialOf(s.ledger, key);
      s.(started := s.started + {id},
         table := s.table - {key},
         calls := s.calls[id := Taken(challenge, signature, serial, s.table[key])],
         ledger := Move(s.ledger, serial, InCall(id)))
  }

  function Check(s: System, id: nat): System {
    if id !in s.calls || !s.calls[id].Taken? then s
    else
      var c := s.calls[id];
      if Expired(c.pending, s.clock) || c.pending.challenge != c.challenge then s.(calls := s.calls - {id})
      else s.(calls := s.calls[id := Checked(c.challenge, c.signature, c.serial, c.pending.service, s.clock)])
  }

  function Finish(s: System, verify: Verifier, id: nat): System {
    if id !in s.calls || !s.calls[id].Checked? then s
    else
      var c := s.calls[id];
      var s' := s.(calls := s.calls - {id});
      if c.service in s.services && Signed(verify, s.services[c.service], c.challenge, c.signature)
      then s'.(accepted := s.accepted +
                 [Acceptance(id, c.challenge, c.serial, c.service, c.checkedAt, s.services[c.service])],
               ledger := Move(s.ledger, c.serial, Accepted(|s.accepted|)))
      else s'
  }

  /** With `pruning` off, sweeps run but remove nothing. */
  function Apply(s: System, verify: Verifier, pruning: bool, a: Action): System {
    match a
    case Tick(elapsed) => s.(clock := s.clock + elapsed)
    case Register(name, record) => s.(services := s.services[name := record])
    case Unregister(name) => s.(services := s.services - {name})
    case LookupForChallenge(id, service) =>
      if service in s.services then s.(generating := s.generating[id := service]) else s
    case IssueChallenge(id, challenge) =>
      if id in s.generating then Issued(s, challenge, s.generating[id]).(generating := s.generating - {id}) else s
    case TakeChallenge(id, challenge, signature) => Take(s, id, challenge, signature)
    case CheckExpiry(id) => Check(s, id)
    case LookupAndVerify(id) => Finish(s, verify, id)
    case GiveUp(id) => s.(calls := s.calls - {id})
    case StampSweep(id) => s.(sweeps := s.sweeps[id := s.clock])
    case RunSweep(id) =>
      if id !in s.sweeps then s
      else s.(table := if pruning then Sweep(s.table, s.sweeps[id]) else s.table, sweeps := s.sweeps - {id})
  }

  function Run(s: System, verify: Verifier, pruning: bool, actions: seq<Action>): System
    decreases |actions|
  {
    if actions == [] then s else Run(Apply(s, verify, pruning, actions[0]), verify, pruning, actions[1..])
  }

  function Start(now: Time): System {
    System(now, map[], map[], map[], map[], {}, map[], [], Ledger([], map[], map[]))
  }

  // ---- the invariant ----

  /** `challenge` is what was handed out under this serial number, for this service. */
  ghost predicate IsIssue(l: Ledger, serial: nat, challenge: bytes, service: string) {
    serial < |l.issued| && l.issued[serial].challenge == challenge && l.issued[serial].service == service
  }

  predicate IsAt(l: Ledger, serial: nat, place: Place) {
    serial in l.place && l.place[serial] == place
  }

  ghost predicate PendingInv(l: Ledger, serial: nat, p: Pending) {
    IsIssue(l, serial, p.challenge, p.service) && p.expiresAt == l.issued[serial].at + CHALLENGE_TTL
  }

  ghost predicate TableInv(t: Table, l: Ledger, key: string) {
    key in t ==>
      key == ToHex(t[key].challenge) && key in l.born && PendingInv(l, l.born[key], t[key]) &&
        IsAt(l, l.born[key], InTable(key))
  }

  ghost predicate CallInv(calls: Calls, l: Ledger, id: nat) {
    id in calls ==>
      var c := calls[id];
      && IsAt(l, c.serial, InCall(id))
      && match c
         case Taken(challenge, _, serial, pending) => pending.challenge == challenge && PendingInv(l, serial, pending)
         case Checked(challenge, _, serial, service, checkedAt) =>
           && IsIssue(l, serial, challenge, service)
           && l.issued[serial].at <= checkedAt <= l.issued[serial].at + CHALLENGE_TTL
  }

  ghost predicate AcceptanceInv(accepted: seq<Acceptance>, l: Ledger, i: nat) {
    i < |accepted| ==>
      var a := accepted[i];
      && IsIssue(l, a.serial, a.challenge, a.service)
      && l.issued[a.serial].at <= a.checkedAt <= l.issued[a.serial].at + CHALLENGE_TTL
      && IsAt(l, a.serial, Accepted(i))
  }

  ghost predicate LedgerInv(l: Ledger, clock: Time) {
    forall serial: nat :: serial < |l.issued| ==> l.issued[serial].at <= clock
  }

  ghost predicate Inv(s: System) {
    && (forall key :: TableInv(s.table, s.ledger, key))
    && (forall id: nat :: CallInv(s.calls, s.ledger, id))
    && (forall i: nat :: AcceptanceInv(s.accepted, s.ledger, i))
    && LedgerInv(s.ledger, s.clock)
    && s.calls.Keys <= s.started
  }

  /** Nothing new, nothing moved. */
  lemma {:induction false} InvCarries(s: System, s': System)
    requires Inv(s)
    requires s.ledger == s'.ledger && s.accepted == s'.accepted
    requires s.clock <= s'.clock && s.started <= s'.started
    requires forall k :: k in s'.table ==> k in s.table && s'.table[k] == s.table[k]
    requires forall id :: id in s'.calls ==> id in s.calls && s'.calls[id] == s.calls[id]
    ensures Inv(s')
  {
    forall key ensures TableInv(s'.table, s'.ledger, key) { assert TableInv(s.table, s.ledger, key); }
    forall id: nat ensures CallInv(s'.calls, s'.ledger, id) { assert CallInv(s.calls, s.ledger, id); }
  }

  lemma {:induction false} IssueKeeps(s: System, challenge: bytes, service: string)
    requires Inv(s)
    ensures Inv(Issued(s, challenge, service))
  {
    var s' := Issued(s, challenge, service);
    forall key ensures TableInv(s'.table, s'.ledger, key) { assert TableInv(s.table, s.ledger, key); }
    forall id: nat ensures CallInv(s'.calls, s'.ledger, id) { assert CallInv(s.calls, s.ledger, id); }
    forall i: nat ensures AcceptanceInv(s'.accepted, s'.ledger, i) { assert AcceptanceInv(s.accepted, s.ledger, i); }
  }

  /** Moving one serial number out of its place leaves everything that is elsewhere in order. */
  lemma {:induction false} MoveKeeps(t: Table, calls: Calls, accepted: seq<Acceptance>, l: Ledger, serial: nat,
                                     from: Place, place: Place)
    requires IsAt(l, serial, from)
    ensures var l' := Move(l, serial, place);
            && (forall key :: TableInv(t, l, key) && from != InTable(key) ==> TableInv(t, l', key))
            && (forall id: nat :: CallInv(calls, l, id) && from != InCall(id) ==> CallInv(calls, l', id))
            && (forall i: nat :: AcceptanceInv(accepted, l, i) && from != Accepted(i) ==>
                 AcceptanceInv(accepted, l', i))
  {
  }

  lemma {:induction false} TakeKeeps(s: System, id: nat, challenge: bytes, signature: bytes)
    requires Inv(s) && id !in s.started && ToHex(challenge) in s.table
    ensures Inv(Take(s, id, challenge, signature))
  {
    var s' := Take(s, id, challenge, signature);
    var key := ToHex(challenge);
    assert TableInv(s.table, s.ledger, key);
    HexInjective(challenge, s.table[key].challenge);
    MoveKeeps(s.table, s.calls, s.accepted, s.ledger, s.ledger.born[key], InTable(key), InCall(id));
    forall k ensures TableInv(s'.table, s'.ledger, k) { assert TableInv(s.table, s.ledger, k); }
    forall other: nat ensures CallInv(s'.calls, s'.ledger, other) { assert CallInv(s.calls, s.ledger, other); }
    forall i: nat ensures AcceptanceInv(s'.accepted, s'.ledger, i) { assert AcceptanceInv(s.accepted, s.ledger, i); }
  }

  lemma {:induction false} CheckKeeps(s: System, id: nat)
    requires Inv(s) && id in s.calls && s.calls[id].Taken?
    ensures Inv(Check(s, id))
  {
    var c := s.calls[id];
    assert CallInv(s.calls, s.ledger, id);
    if Expired(c.pending, s.clock) {
      InvCarries(s, Check(s, id));
    } else {
      assert LedgerInv(s.ledger, s.clock);
      CheckedCall(s, Check(s, id), id, Checked(c.challenge, c.signature, c.serial, c.pending.service, s.clock));
    }
  }

  lemma {:induction false} CheckedCall(s: System, s': System, id: nat, c: Call)
    requires Inv(s) && id in s.calls
    requires s' == s.(calls := s.calls[id := c]) && CallInv(s'.calls, s.ledger, id)
    ensures Inv(s')
  {
    forall other: nat ensures CallInv(s'.calls, s'.ledger, other) { assert CallInv(s.calls, s.ledger, other); }
  }

  lemma {:induction false} FinishKeeps(s: System, verify: Verifier, id: nat)
    requires Inv(s) && id in s.calls && s.calls[id].Checked?
    ensures Inv(Finish(s, verify, id))
  {
    var s' := Finish(s, verify, id);
    if s'.accepted == s.accepted {
      InvCarries(s, s');
    } else {
      AcceptKeeps(s, s', id, s'.accepted[|s.accepted|]);
    }
  }

  lemma {:induction false} AcceptKeeps(s: System, s': System, id: nat, a: Acceptance)
    requires Inv(s) && id in s.calls && s.calls[id].Checked?
    requires a.challenge == s.calls[id].challenge && a.serial == s.calls[id].serial
    requires a.service == s.calls[id].service && a.checkedAt == s.calls[id].checkedAt
    requires s' == s.(calls := s.calls - {id}, accepted := s.accepted + [a],
        ledger := Move(s.ledger, a.serial, Accepted(|s.accepted|)))
    ensures Inv(s')
  {
    assert CallInv(s.calls, s.ledger, id);
    MoveKeeps(s.table, s.calls, s.accepted, s.ledger, a.serial, InCall(id), Accepted(|s.accepted|));
    forall other: nat ensures CallInv(s'.calls, s'.ledger, other) {
      assert CallInv(s.calls, s.ledger, other);
      assert other != id ==> CallInv(s.calls, s'.ledger, other);
    }
    forall i: nat ensures AcceptanceInv(s'.accepted, s'.ledger, i) {
      assert AcceptanceInv(s.accepted, s.ledger, i);
      assert AcceptanceInv(s.accepted, s'.ledger, i);
    }
  }

  lemma {:induction false} ApplyKeeps(s: System, verify: Verifier, pruning: bool, a: Action)
    requires Inv(s)
    ensures Inv(Apply(s, verify, pruning, a))
  {
    match a {
      case IssueChallenge(id, challenge) =>
        if id in s.generating {
          IssueKeeps(s, challenge, s.generating[id]);
          InvCarries(Issued(s, challenge, s.generating[id]), Apply(s, verify, pruning, a));
        }
      case TakeChallenge(id, challenge, signature) =>
        if id !in s.started {
          if ToHex(challenge) in s.table { TakeKeeps(s, id, challenge, signature); }
          else { InvCarries(s, Apply(s, verify, pruning, a)); }
        }
      case CheckExpiry(id) =>
        if id in s.calls && s.calls[id].Taken? { CheckKeeps(s, id); }
      case LookupAndVerify(id) =>
        if id in s.calls && s.calls[id].Checked? { FinishKeeps(s, verify, id); }
      case _ => InvCarries(s, Apply(s, verify, pruning, a));
    }
  }

  lemma {:induction false} RunKeeps(s: System, verify: Verifier, pruning: bool, actions: seq<Action>)
    requires Inv(s)
    ensures Inv(Run(s, verify, pruning, actions))
    decreases |actions|
  {
    if actions != [] {
      ApplyKeeps(s, verify, pruning, actions[0]);
      RunKeeps(Apply(s, verify, pruning, actions[0]), verify, pruning, actions[1..]);
    }
  }

  // ---- one-shot challenges ----

  /**
   What an acceptance has behind it: an issue of its own challenge for its service, checked at most 60
   seconds later.
   */
  ghost predicate Justified(s: System, a: Acceptance) {
    && IsIssue(s.ledger, a.serial, a.challenge, a.service)
    && s.ledger.issued[a.serial].at <= a.checkedAt <= s.ledger.issued[a.serial].at + 60_000_000_000
  }

  ghost predicate Reachable(s: System, now: Time, verify: Verifier, pruning: bool, actions: seq<Action>) {
    s == Run(Start(now), verify, pruning, actions)
  }

  /** In every reachable state every acceptance answers an issue, and no issue is answered twice. */
  lemma {:induction false} OneShot(s: System, now: Time, verify: Verifier, pruning: bool, actions: seq<Action>)
    requires Reachable(s, now, verify, pruning, actions)
    ensures forall i :: 0 <= i < |s.accepted| ==> Justified(s, s.accepted[i])
    ensures forall i, j :: 0 <= i < j < |s.accepted| ==> s.accepted[i].serial != s.accepted[j].serial
  {
    RunKeeps(Start(now), verify, pruning, actions);
    forall i | 0 <= i < |s.accepted|
      ensures Justified(s, s.accepted[i]) && IsAt(s.ledger, s.accepted[i].serial, Accepted(i))
    {
      assert AcceptanceInv(s.accepted, s.ledger, i);
    }
  }

  ghost function AcceptancesOf(s: System, challenge: bytes): set<nat> {
    set i: nat | i < |s.accepted| && s.accepted[i].challenge == challenge
  }

  ghost function IssuesOf(s: System, challenge: bytes): set<nat> {
    set n: nat | n < |s.ledger.issued| && s.ledger.issued[n].challenge == challenge
  }

  lemma {:induction false} InjectionCounts(from: set<nat>, into: set<nat>, f: nat -> nat)
    requires forall x :: x in from ==> f(x) in into
    requires forall x, y :: x in from && y in from && x != y ==> f(x) != f(y)
    ensures |from| <= |into|
    decreases |from|
  {
    if from != {} {
      var x :| x in from;
      InjectionCounts(from - {x}, into - {f(x)}, f);
    }
  }

  /** For each challenge value, the successful Verify calls never exceed the times it was handed out. */
  lemma {:induction false} AcceptedAtMostIssued(s: System, now: Time, verify: Verifier, pruning: bool,
                                                actions: seq<Action>, challenge: bytes)
    requires Reachable(s, now, verify, pruning, actions)
    ensures |AcceptancesOf(s, challenge)| <= |IssuesOf(s, challenge)|
  {
    OneShot(s, now, verify, pruning, actions);
    var serialOf := (i: nat) => if i < |s.accepted| then s.accepted[i].serial else 0;
    forall i | i in AcceptancesOf(s, challenge) ensures serialOf(i) in IssuesOf(s, challenge) {
      assert Justified(s, s.accepted[i]);
    }
    InjectionCounts(AcceptancesOf(s, challenge), IssuesOf(s, challenge), serialOf);
  }

  /** Only issuing puts a challenge into the table. */
  lemma {:induction false} TableGrowsByIssue(s: System, verify: Verifier, pruning: bool, a: Action, challenge: bytes)
    requires ToHex(challenge) !in s.table
    requires !(a.IssueChallenge? && a.challenge == challenge)
    ensures ToHex(challenge) !in Apply(s, verify, pruning, a).table
  {
    if a.IssueChallenge? && ToHex(a.challenge) == ToHex(challenge) {
      HexInjective(a.challenge, challenge);
    }
  }

  /** A challenge that has been taken cannot be taken again until it is handed out again. */
  lemma {:induction false} TakenIsGone(s: System, verify: Verifier, pruning: bool, challenge: bytes,
                                       actions: seq<Action>)
    requires ToHex(challenge) !in s.table
    requires forall i :: 0 <= i < |actions| ==> !(actions[i].IssueChallenge? && actions[i].challenge == challenge)
    ensures ToHex(challenge) !in Run(s, verify, pruning, actions).table
    decreases |actions|
  {
    if actions != [] {
      TableGrowsByIssue(s, verify, pruning, actions[0], challenge);
      TakenIsGone(Apply(s, verify, pruning, actions[0]), verify, pruning, challenge, actions[1..]);
    }
  }

  /** The calls that have taken this challenge and not yet answered. */
  ghost function Holders(calls: Calls, challenge: bytes): set<nat> {
    set id | id in calls && calls[id].challenge == challenge
  }

  /** `s'` has no new holder, and whoever has been accepted since `s` held the challenge there. */
  ghost predicate OnlyHoldersMove(s: System, s': System, challenge: bytes) {
    && Holders(s'.calls, challenge) <= Holders(s.calls, challenge)
    && s.accepted <= s'.accepted
    && forall i :: |s.accepted| <= i < |s'.accepted| && s'.accepted[i].challenge == challenge ==>
         s'.accepted[i].call in Holders(s.calls, challenge)
  }

  lemma {:induction false} CheckHolders(s: System, id: nat, challenge: bytes)
    ensures OnlyHoldersMove(s, Check(s, id), challenge)
  {
  }

  lemma {:induction false} FinishHolders(s: System, verify: Verifier, id: nat, challenge: bytes)
    ensures OnlyHoldersMove(s, Finish(s, verify, id), challenge)
  {
  }

  lemma {:induction false} TakeHolders(s: System, id: nat, taken: bytes, signature: bytes, challenge: bytes)
    requires ToHex(challenge) !in s.table
    ensures OnlyHoldersMove(s, Take(s, id, taken, signature), challenge)
  {
  }

  /** A step without the challenge in the table makes no new holder, and only holders are accepted. */
  lemma {:induction false} HoldersShrink(s: System, verify: Verifier, pruning: bool, a: Action, challenge: bytes)
    requires ToHex(challenge) !in s.table
    ensures OnlyHoldersMove(s, Apply(s, verify, pruning, a), challenge)
  {
    match a
    case TakeChallenge(id, taken, signature) => TakeHolders(s, id, taken, signature, challenge);
    case CheckExpiry(id) => CheckHolders(s, id, challenge);
    case LookupAndVerify(id) => FinishHolders(s, verify, id, challenge);
    case _ =>
  }

  /** As long as a challenge is not handed out again, only the calls that have already taken it can succeed with it. */
  lemma {:induction false} OnlyHoldersAccepted(s: System, verify: Verifier, pruning: bool, challenge: bytes,
                                               actions: seq<Action>)
    requires ToHex(challenge) !in s.table
    requires forall i :: 0 <= i < |actions| ==> !(actions[i].IssueChallenge? && actions[i].challenge == challenge)
    ensures var t := Run(s, verify, pruning, actions);
            && s.accepted <= t.accepted
            && forall i :: |s.accepted| <= i < |t.accepted| && t.accepted[i].challenge == challenge ==>
                 t.accepted[i].call in Holders(s.calls, challenge)
    decreases |actions|
  {
    if actions != [] {
      var s' := Apply(s, verify, pruning, actions[0]);
      TableGrowsByIssue(s, verify, pruning, actions[0], challenge);
      HoldersShrink(s, verify, pruning, actions[0], challenge);
      OnlyHoldersAccepted(s', verify, pruning, challenge, actions[1..]);
    }
  }

  /**
   A Verify call uses its challenge up, whether or not it goes on to succeed: until the challenge is handed
   out again, no call but this one and those that had taken it before can succeed with it.
   */
  lemma {:induction false} TakeUsesUp(s: System, verify: Verifier, pruning: bool, id: nat, challenge: bytes,
                                      signature: bytes, actions: seq<Action>)
    requires id !in s.started
    requires forall i :: 0 <= i < |actions| ==> !(actions[i].IssueChallenge? && actions[i].challenge == challenge)
    ensures var t := Run(Apply(s, verify, pruning, TakeChallenge(id, challenge, signature)), verify, pruning, actions);
            && s.accepted <= t.accepted && ToHex(challenge) !in t.table
            && forall i :: |s.accepted| <= i < |t.accepted| && t.accepted[i].challenge == challenge ==>
                 (t.accepted[i].call == id && ToHex(challenge) in s.table) ||
                   t.accepted[i].call in Holders(s.calls, challenge)
  {
    var s' := Apply(s, verify, pruning, TakeChallenge(id, challenge, signature));
    assert ToHex(challenge) !in s'.table && s'.accepted == s.accepted;
    assert ToHex(challenge) in s.table ==> Holders(s'.calls, challenge) <= Holders(s.calls, challenge) + {id};
    assert ToHex(challenge) !in s.table ==> s'.calls == s.calls;
    OnlyHoldersAccepted(s', verify, pruning, challenge, actions);
    TakenIsGone(s', verify, pruning, challenge, actions);
  }

  /** A success returns the record that the service lookup found, under whose key the signature verifies. */
  lemma {:induction false} AcceptedRecordIsCurrent(s: System, verify: Verifier, pruning: bool, a: Action)
    ensures var s' := Apply(s, verify, pruning, a);
            || s'.accepted == s.accepted
            || (&& a.LookupAndVerify? && a.id in s.calls && s.calls[a.id].Checked?
                && var c := s.calls[a.id];
                   && c.service in s.services
                   && |s.services[c.service].publicKey| == 32
                   && verify(s.services[c.service].publicKey, c.challenge, c.signature)
                   && s'.accepted == s.accepted +
                        [Acceptance(a.id, c.challenge, c.serial, c.service, c.checkedAt, s.services[c.service])])
  {
  }

  /** A pending challenge, taken and checked in time and signed with the key of its service, is accepted. */
  lemma {:induction false} HonestCallAccepted(s: System, verify: Verifier, id: nat, challenge: bytes,
                                              signature: bytes, elapsed: nat)
    requires Inv(s) && id !in s.started && ToHex(challenge) in s.table
    requires var p := s.table[ToHex(challenge)];
             && s.clock + elapsed <= p.expiresAt
             && p.service in s.services && |s.services[p.service].publicKey| == 32
             && verify(s.services[p.service].publicKey, challenge, signature)
    ensures var s1 := Apply(s, verify, true, TakeChallenge(id, challenge, signature));
            var s2 := Apply(Apply(s1, verify, true, Tick(elapsed)), verify, true, CheckExpiry(id));
            var s3 := Apply(s2, verify, true, LookupAndVerify(id));
            && |s3.accepted| == |s.accepted| + 1
            && s3.accepted[|s.accepted|].record == s.services[s.table[ToHex(challenge)].service]
  {
    var key := ToHex(challenge);
    assert TableInv(s.table, s.ledger, key);
    HexInjective(challenge, s.table[key].challenge);
  }

  /** A challenge that is handed out, and answered at most 60 seconds later with the key of its service, is accepted. */
  lemma {:induction false} IssuedThenAccepted(s: System, verify: Verifier, gen: nat, id: nat, challenge: bytes,
                                              signature: bytes, elapsed: nat)
    requires Inv(s) && gen in s.generating && id !in s.started && elapsed <= 60_000_000_000
    requires var name := s.generating[gen];
             && name in s.services && |s.services[name].publicKey| == 32
             && verify(s.services[name].publicKey, challenge, signature)
    ensures var s0 := Apply(s, verify, true, IssueChallenge(gen, challenge));
            var s1 := Apply(s0, verify, true, TakeChallenge(id, challenge, signature));
            var s2 := Apply(Apply(s1, verify, true, Tick(elapsed)), verify, true, CheckExpiry(id));
            var s3 := Apply(s2, verify, true, LookupAndVerify(id));
            && |s3.accepted| == |s.accepted| + 1
            && s3.accepted[|s.accepted|].record == s.services[s.generating[gen]]
  {
    var s0 := Apply(s, verify, true, IssueChallenge(gen, challenge));
    ApplyKeeps(s, verify, true, IssueChallenge(gen, challenge));
    HonestCallAccepted(s0, verify, id, challenge, signature, elapsed);
  }

  /** One that is checked later than that is not, whatever happens afterwards to its call. */
  lemma {:induction false} LateCallRejected(s: System, verify: Verifier, gen: nat, id: nat, challenge: bytes,
                                            signature: bytes, elapsed: nat)
    requires Inv(s) && gen in s.generating && id !in s.started && elapsed > 60_000_000_000
    ensures var s0 := Apply(s, verify, true, IssueChallenge(gen, challenge));
            var s1 := Apply(s0, verify, true, TakeChallenge(id, challenge, signature));
            var s2 := Apply(Apply(s1, verify, true, Tick(elapsed)), verify, true, CheckExpiry(id));
            id !in s2.calls && s2.accepted == s.accepted
  {
  }

  /** What is registered is filed under its name until it is removed, and other names are not touched. */
  lemma {:induction false} Registration(s: System, verify: Verifier, pruning: bool, name: string, record: ServiceRecord,
                                        other: string)
    ensures var filed := Apply(s, verify, pruning, Register(name, record)).services;
            var gone := Apply(s, verify, pruning, Unregister(name)).services;
            && name in filed && filed[name] == record && name !in gone
            && (other != name ==>
                  && (other in s.services <==> other in filed) && (other in s.services <==> other in gone)
                  && (other in s.services ==> filed[other] == gone[other] == s.services[other]))
  {
  }

  /** A signature can verify under what is filed under this name. */
  predicate HasKey(services: map<string, ServiceRecord>, name: string) {
    name in services && |services[name].publicKey| == PUBLIC_KEY_LEN
  }

  /** The action files a usable key under this name. */
  predicate Enrols(a: Action, name: string) {
    a.Register? && a.name == name && |a.record.publicKey| == PUBLIC_KEY_LEN
  }

  /**
   From the removal of a service until it is registered again with a key, no Verify succeeds for it, whatever
   else is filed under its name in between.
   */
  lemma {:induction false} RemovedServiceRejected(s: System, verify: Verifier, pruning: bool, name: string,
                                                  actions: seq<Action>)
    requires !HasKey(s.services, name)
    requires forall i :: 0 <= i < |actions| ==> !Enrols(actions[i], name)
    ensures var s' := Run(s, verify, pruning, actions);
            && s.accepted <= s'.accepted && !HasKey(s'.services, name)
            && (forall i :: |s.accepted| <= i < |s'.accepted| ==> s'.accepted[i].service != name)
    decreases |actions|
  {
    if actions != [] {
      AcceptedRecordIsCurrent(s, verify, pruning, actions[0]);
      KeyStaysAway(s, verify, pruning, name, actions[0]);
      RemovedServiceRejected(Apply(s, verify, pruning, actions[0]), verify, pruning, name, actions[1..]);
    }
  }

  lemma {:induction false} KeyStaysAway(s: System, verify: Verifier, pruning: bool, name: string, a: Action)
    requires !HasKey(s.services, name) && !Enrols(a, name)
    ensures !HasKey(Apply(s, verify, pruning, a).services, name)
  {
  }

  /** A service that is not registered under any key at all stays away. */
  lemma {:induction false} RemovedServiceStaysAway(s: System, verify: Verifier, pruning: bool, name: string,
                                                   actions: seq<Action>)
    requires name !in s.services
    requires forall i :: 0 <= i < |actions| ==> !(actions[i].Register? && actions[i].name == name)
    ensures name !in Run(s, verify, pruning, actions).services
    decreases |actions|
  {
    if actions != [] {
      assert name !in Apply(s, verify, pruning, actions[0]).services;
      RemovedServiceStaysAway(Apply(s, verify, pruning, actions[0]), verify, pruning, name, actions[1..]);
    }
  }

  // ---- pruning cannot be observed ----

  /** `u` has what `t` has, and otherwise only challenges that are past their time. */
  ghost predicate OnlyExpiredMore(t: Table, u: Table, clock: Time) {
    && (forall k :: k in t ==> k in u && u[k] == t[k])
    && (forall k :: k in u && k !in t ==> Expired(u[k], clock))
  }

  /** `d` has the calls of `c`, and otherwise only calls that will find their challenge expired. */
  ghost predicate OnlyDoomedMore(c: Calls, d: Calls, clock: Time) {
    && (forall id :: id in c ==> id in d && d[id] == c[id])
    && (forall id :: id in d && id !in c ==> d[id].Taken? && Expired(d[id].pending, clock))
  }

  /** `u` is `s` without any pruning. */
  ghost predicate Unpruned(s: System, u: System) {
    && s.clock == u.clock && s.services == u.services && s.generating == u.generating
    && s.started == u.started && s.sweeps == u.sweeps && s.accepted == u.accepted
    && s.ledger.issued == u.ledger.issued && s.ledger.born == u.ledger.born
    && OnlyExpiredMore(s.table, u.table, s.clock)
    && OnlyDoomedMore(s.calls, u.calls, s.clock)
    && u.calls.Keys <= u.started
    && (forall id :: id in s.sweeps ==> s.sweeps[id] <= s.clock)
  }

  lemma {:induction false} SweepUnpruned(t: Table, u: Table, stamp: Time, clock: Time)
    requires OnlyExpiredMore(t, u, clock) && stamp <= clock
    ensures OnlyExpiredMore(Sweep(t, stamp), u, clock)
  {
  }

  lemma {:induction false} LaterUnpruned(s: System, u: System, elapsed: nat)
    requires Unpruned(s, u)
    ensures Unpruned(s.(clock := s.clock + elapsed), u.(clock := u.clock + elapsed))
  {
  }

  lemma {:induction false} TakeUnpruned(s: System, u: System, id: nat, challenge: bytes, signature: bytes)
    requires Unpruned(s, u)
    ensures Unpruned(Take(s, id, challenge, signature), Take(u, id, challenge, signature))
  {
    var key := ToHex(challenge);
    if id !in s.started {
      KeyRemoved(s.table, u.table, s.clock, key);
      if key in s.table {
        CallAdded(s.calls, u.calls, s.clock, id, Taken(challenge, signature, SerialOf(s.ledger, key), s.table[key]));
      } else {
        assert s.table - {key} == s.table;
        if key in u.table {
          DoomedAdded(s.calls, u.calls, s.clock, id,
                      Taken(challenge, signature, SerialOf(u.ledger, key), u.table[key]));
        } else {
          assert u.table - {key} == u.table;
        }
      }
    }
  }

  lemma {:induction false} KeyRemoved(t: Table, u: Table, clock: Time, key: string)
    requires OnlyExpiredMore(t, u, clock)
    ensures OnlyExpiredMore(t - {key}, u - {key}, clock)
  {
  }

  lemma {:induction false} CallAdded(c: Calls, d: Calls, clock: Time, id: nat, call: Call)
    requires OnlyDoomedMore(c, d, clock)
    ensures OnlyDoomedMore(c[id := call], d[id := call], clock)
  {
  }

  lemma {:induction false} DoomedAdded(c: Calls, d: Calls, clock: Time, id: nat, call: Call)
    requires OnlyDoomedMore(c, d, clock) && id !in d && call.Taken? && Expired(call.pending, clock)
    ensures OnlyDoomedMore(c, d[id := call], clock)
  {
  }

  lemma {:induction false} CallRemoved(c: Calls, d: Calls, clock: Time, id: nat)
    requires OnlyDoomedMore(c, d, clock)
    ensures OnlyDoomedMore(c - {id}, d - {id}, clock)
    ensures id !in c ==> c - {id} == c
  {
  }

  lemma {:induction false} CheckUnpruned(s: System, u: System, id: nat)
    requires Unpruned(s, u)
    ensures Unpruned(Check(s, id), Check(u, id))
  {
    if id in s.calls {
      CheckBoth(s, u, id);
    } else {
      CallRemoved(s.calls, u.calls, s.clock, id);
    }
  }

  lemma {:induction false} CheckBoth(s: System, u: System, id: nat)
    requires Unpruned(s, u) && id in s.calls
    ensures Unpruned(Check(s, id), Check(u, id))
  {
    var c := s.calls[id];
    assert u.calls[id] == c;
    if c.Taken? {
      if Expired(c.pending, s.clock) || c.pending.challenge != c.challenge {
        CallRemoved(s.calls, u.calls, s.clock, id);
      } else {
        CallAdded(s.calls, u.calls, s.clock, id,
                  Checked(c.challenge, c.signature, c.serial, c.pending.service, s.clock));
      }
    }
  }

  lemma {:induction false} FinishUnpruned(s: System, u: System, verify: Verifier, id: nat)
    requires Unpruned(s, u)
    ensures Unpruned(Finish(s, verify, id), Finish(u, verify, id))
  {
    if id in s.calls && s.calls[id].Checked? {
      FinishBoth(s, u, verify, id);
    } else {
      assert Finish(s, verify, id) == s && Finish(u, verify, id) == u;
    }
  }

  lemma {:induction false} FinishBoth(s: System, u: System, verify: Verifier, id: nat)
    requires Unpruned(s, u) && id in s.calls && s.calls[id].Checked?
    ensures Unpruned(Finish(s, verify, id), Finish(u, verify, id))
  {
    assert u.calls[id] == s.calls[id];
    CallRemoved(s.calls, u.calls, s.clock, id);
  }

  lemma {:induction false} IssueUnpruned(s: System, u: System, challenge: bytes, service: string)
    requires Unpruned(s, u)
    ensures Unpruned(Issued(s, challenge, service), Issued(u, challenge, service))
  {
  }

  /** The actions that touch neither the table nor a running call. */
  lemma {:induction false} RestUnpruned(s: System, u: System, verify: Verifier, a: Action)
    requires Unpruned(s, u)
    requires a.Register? || a.Unregister? || a.LookupForChallenge? || a.StampSweep?
    ensures Unpruned(Apply(s, verify, true, a), Apply(u, verify, false, a))
  {
  }

  lemma {:induction false} StepUnpruned(s: System, u: System, verify: Verifier, a: Action)
    requires Unpruned(s, u)
    ensures Unpruned(Apply(s, verify, true, a), Apply(u, verify, false, a))
  {
    match a {
      case Tick(elapsed) => LaterUnpruned(s, u, elapsed);
      case IssueChallenge(id, challenge) =>
        if id in s.generating { IssueUnpruned(s, u, challenge, s.generating[id]); }
      case TakeChallenge(id, challenge, signature) => TakeUnpruned(s, u, id, challenge, signature);
      case CheckExpiry(id) => CheckUnpruned(s, u, id);
      case LookupAndVerify(id) => FinishUnpruned(s, u, verify, id);
      case GiveUp(id) => CallRemoved(s.calls, u.calls, s.clock, id);
      case RunSweep(id) =>
        if id in s.sweeps { SweepUnpruned(s.table, u.table, s.sweeps[id], s.clock); }
      case _ => RestUnpruned(s, u, verify, a);
    }
  }

  lemma {:induction false} RunsUnpruned(s: System, u: System, verify: Verifier, actions: seq<Action>)
    requires Unpruned(s, u)
    ensures Unpruned(Run(s, verify, true, actions), Run(u, verify, false, actions))
    decreases |actions|
  {
    if actions != [] {
      StepUnpruned(s, u, verify, actions[0]);
      RunsUnpruned(Apply(s, verify, true, actions[0]), Apply(u, verify, false, actions[0]), verify, actions[1..]);
    }
  }

  /**
   Whatever the interleaving of issues, Verify calls and sweeps, and however old the time stamps of the
   sweeps: the successful calls, their order and the records they return are those of a table that is never
   pruned.
   */
  lemma {:induction false} PruningUnobservable(now: Time, verify: Verifier, actions: seq<Action>)
    ensures Run(Start(now), verify, true, actions).accepted == Run(Start(now), verify, false, actions).accepted
  {
    RunsUnpruned(Start(now), Start(now), verify, actions);
  }
}
