/**
 Runs in which no store step fails, against an abstract vault: for each path the full history of committed
 records and a deleted flag. The records of every path that JSON keeps apart are the image of the vault.
 */
module KVRuns {
  import opened Wrappers
  import opened Json
  import opened KVRecords

  datatype Secret = Secret(history: seq<KVEntry>, deletedAt: Option<Time>)

  type Vault = map<string, Secret>

  ghost predicate WellFormed(j: JsonView, vault: Vault, path: string) {
    path in vault ==>
      vault[path].history != [] && IsHistory(path, vault[path].history) && Canonical(j, vault[path].history)
  }

  /** The records of one path are those of the vault: its metadata, its last ten versions, and nothing else. */
  ghost predicate IsImage(r: Records, vault: Vault, path: string) {
    && (path in r.metas <==> path in vault)
    && (path in vault ==> r.metas[path] == KVMeta(path, |vault[path].history|, vault[path].deletedAt))
    && (forall v: nat :: (path, v) in r.versions <==> path in vault && Retained(|vault[path].history|, v))
    && (forall v: nat :: (path, v) in r.versions ==> r.versions[(path, v)] == vault[path].history[v - 1])
  }

  /** All records are those of the vault. */
  ghost predicate IsWholeImage(r: Records, vault: Vault) {
    forall path :: IsImage(r, vault, path)
  }

  // ---- the vault's own operations ----

  function VaultGet(vault: Vault, path: string, version: int): Result<KVEntry> {
    if path !in vault then Err(NotFound)
    else if vault[path].deletedAt.Some? then Err(SecretDeleted)
    else
      var h := vault[path].history;
      var v := if version == 0 then |h| else version;
      if v < 1 || v > |h| then Err(VersionNotFound)
      else if Retained(|h|, v) then Ok(h[v - 1])
      else Err(NotFound)
  }

  function PastOf(vault: Vault, path: string): seq<KVEntry> {
    if path in vault then vault[path].history else []
  }

  /** A write appends to the history and clears the flag. */
  function Append(vault: Vault, path: string, value: JsonValue, now: Time): Vault {
    var h := PastOf(vault, path);
    vault[path := Secret(h + [KVEntry(path, |h| + 1, value, now)], None)]
  }

  function VaultStep(vault: Vault, j: JsonView, op: Op): (Vault, Answer) {
    match op
    case SetOp(p, value, now) =>
      if j.raw(value).None? then (vault, Wrote(Err(MarshalFailed)))
      else (Append(vault, p, j.raw(value).value, now), Wrote(Ok(KVEntry(p, |PastOf(vault, p)| + 1, value, now))))
    case DeleteOp(p, now) =>
      if p !in vault then (vault, Deleted(Some(NotFound)))
      else (vault[p := vault[p].(deletedAt := Some(now))], Deleted(None))
    case RollbackOp(p, version, now) =>
      match VaultGet(vault, p, version)
      case Err(e) => (vault, Wrote(Err(e)))
      case Ok(source) =>
        (Append(vault, p, source.value, now), Wrote(Ok(KVEntry(p, |PastOf(vault, p)| + 1, source.value, now))))
  }

  function VaultRun(vault: Vault, j: JsonView, ops: seq<Op>): (Vault, seq<Answer>)
    decreases |ops|
  {
    if ops == [] then (vault, [])
    else
      var (vault', answer) := VaultStep(vault, j, ops[0]);
      var (final, answers) := VaultRun(vault', j, ops[1..]);
      (final, [answer] + answers)
  }

  function RecordRun(r: Records, j: JsonView, ops: seq<Op>): (end: (Records, seq<Answer>))
    ensures |end.1| == |ops|
    decreases |ops|
  {
    if ops == [] then (r, [])
    else
      var (r', answer) := RecordStep(r, j, ops[0]);
      var (final, answers) := RecordRun(r', j, ops[1..]);
      (final, [answer] + answers)
  }

  // ---- refinement ----

  lemma {:induction false} ImageGet(r: Records, vault: Vault, path: string, version: int)
    requires IsImage(r, vault, path)
    ensures GetSecret(r, path, version) == VaultGet(vault, path, version)
  {
    if path in vault {
      var n := |vault[path].history|;
      var v := if version == 0 then n else version;
      assert 1 <= v <= n ==> ((path, v) in r.versions <==> Retained(n, v));
    }
  }

  /** A write puts one version in at the end of the window and takes one out at the other end. */
  lemma {:induction false} SetVersions(r: Records, j: JsonView, path: string, n: nat, value: JsonValue, now: Time)
    requires j.raw(value).Some? && j.Faithful(path)
    requires if path in r.metas then r.metas[path].currentVersion == n && r.metas[path].path == path else n == 0
    requires (path, 0) !in r.versions
    ensures var r' := SetSecret(r, j, path, value, now).0;
            && path in r'.metas && r'.metas[path] == KVMeta(path, n + 1, None)
            && (forall v: nat :: (path, v) in r'.versions <==>
                 ((path, v) in r.versions || v == n + 1) && v + MAX_VERSIONS != n + 1)
            && (forall v: nat :: (path, v) in r'.versions ==>
                  r'.versions[(path, v)] ==
                    if v == n + 1 then KVEntry(path, n + 1, j.raw(value).value, now) else r.versions[(path, v)])
    ensures SetSecret(r, j, path, value, now).1 == Ok(KVEntry(path, n + 1, value, now))
  {
    if path in r.metas {
      assert r.metas[path].(deletedAt := None, currentVersion := n + 1) == KVMeta(path, n + 1, None);
    }
  }

  lemma {:induction false} ImageAppend(r: Records, j: JsonView, vault: Vault, path: string, value: JsonValue, now: Time)
    requires IsImage(r, vault, path) && WellFormed(j, vault, path) && j.Stable() && j.Faithful(path)
    requires j.raw(value).Some?
    ensures var vault' := Append(vault, path, j.raw(value).value, now);
            WellFormed(j, vault', path) && IsImage(SetSecret(r, j, path, value, now).0, vault', path)
    ensures SetSecret(r, j, path, value, now).1 == Ok(KVEntry(path, |PastOf(vault, path)| + 1, value, now))
  {
    assert (path, 0) in r.versions <==> path in vault && Retained(|vault[path].history|, 0);
    SetVersions(r, j, path, |PastOf(vault, path)|, value, now);
    WindowMoves(r, vault, path, KVEntry(path, |PastOf(vault, path)| + 1, j.raw(value).value, now),
                SetSecret(r, j, path, value, now).0);
  }

  lemma {:induction false} WindowMoves(r: Records, vault: Vault, path: string, stored: KVEntry, r': Records)
    requires IsImage(r, vault, path)
    requires var n := |PastOf(vault, path)|;
             && (path in vault ==> n > 0)
             && path in r'.metas && r'.metas[path] == KVMeta(path, n + 1, None)
             && (forall v: nat :: (path, v) in r'.versions <==>
                  ((path, v) in r.versions || v == n + 1) && v + MAX_VERSIONS != n + 1)
             && (forall v: nat :: (path, v) in r'.versions ==>
                  r'.versions[(path, v)] == if v == n + 1 then stored else r.versions[(path, v)])
    ensures IsImage(r', vault[path := Secret(PastOf(vault, path) + [stored], None)], path)
  {
    var n := |PastOf(vault, path)|;
    forall v: nat ensures (path, v) in r'.versions <==> Retained(n + 1, v) {
      assert (path, v) in r.versions <==> path in vault && Retained(n, v);
      assert Retained(n + 1, v) <==> v == n + 1 || (Retained(n, v) && v + MAX_VERSIONS != n + 1);
    }
  }

  lemma {:induction false} ImageDelete(r: Records, j: JsonView, vault: Vault, path: string, now: Time)
    requires IsImage(r, vault, path) && WellFormed(j, vault, path) && j.Faithful(path) && path in vault
    ensures var vault' := vault[path := Secret(vault[path].history, Some(now))];
            WellFormed(j, vault', path) && IsImage(DeleteSecret(r, j, path, now).0, vault', path)
  {
  }

  lemma {:induction false} RollbackRefines(r: Records, j: JsonView, vault: Vault, path: string, version: int, now: Time)
    requires IsImage(r, vault, path) && WellFormed(j, vault, path) && j.Stable() && j.Faithful(path)
    ensures var (r', result) := RollbackSecret(r, j, path, version, now);
            var (vault', answer) := VaultStep(vault, j, RollbackOp(path, version, now));
            IsImage(r', vault', path) && WellFormed(j, vault', path) && answer == Wrote(result)
  {
    ImageGet(r, vault, path, version);
    var got := VaultGet(vault, path, version);
    if got.Ok? {
      assert j.raw(got.value.value) == Some(got.value.value);
      ImageAppend(r, j, vault, path, got.value.value, now);
    }
  }

  /** Each operation on a path that JSON keeps is the operation of the vault, with the same answer. */
  lemma {:induction false} StepRefines(r: Records, j: JsonView, vault: Vault, op: Op)
    requires IsImage(r, vault, op.path) && WellFormed(j, vault, op.path) && j.Stable() && j.Faithful(op.path)
    ensures var (r', answer) := RecordStep(r, j, op);
            var (vault', answer') := VaultStep(vault, j, op);
            IsImage(r', vault', op.path) && WellFormed(j, vault', op.path) && answer == answer'
  {
    match op
    case SetOp(p, value, now) =>
      if j.raw(value).Some? { ImageAppend(r, j, vault, p, value, now); }
    case DeleteOp(p, now) =>
      if p in vault { ImageDelete(r, j, vault, p, now); }
    case RollbackOp(p, version, now) =>
      RollbackRefines(r, j, vault, p, version, now);
  }

  /** The operation that nothing interrupts is one of the outcomes. */
  lemma {:induction false} StepIsOutcome(r: Records, j: JsonView, op: Op)
    ensures OpOutcome(r, j, op, RecordStep(r, j, op).0, RecordStep(r, j, op).1)
  {
  }

  /** A step on another path moves neither side. */
  lemma {:induction false} OtherStepRefines(r: Records, j: JsonView, vault: Vault, op: Op, path: string)
    requires Labelled(r, j) && IsImage(r, vault, path) && WellFormed(j, vault, path)
    requires op.path != path && j.text(op.path) != path
    ensures IsImage(RecordStep(r, j, op).0, VaultStep(vault, j, op).0, path)
    ensures WellFormed(j, VaultStep(vault, j, op).0, path)
  {
    var r', vault' := RecordStep(r, j, op).0, VaultStep(vault, j, op).0;
    StepIsOutcome(r, j, op);
    OtherPathsUntouched(r, j, op, r', RecordStep(r, j, op).1, path);
    assert path in vault' <==> path in vault;
    assert path in vault ==> vault'[path] == vault[path];
  }

  /** Two runs have given the same answers to everything that was asked about a path. */
  ghost predicate SameAnswersOn(ops: seq<Op>, a: seq<Answer>, b: seq<Answer>, path: string) {
    && |a| == |b| == |ops|
    && forall i :: 0 <= i < |ops| && ops[i].path == path ==> a[i] == b[i]
  }

  /** After any run the records of a path are the image of the vault, and both have answered it the same. */
  lemma {:induction false} RunRefines(r: Records, j: JsonView, vault: Vault, ops: seq<Op>, path: string)
    requires Labelled(r, j) && IsImage(r, vault, path) && WellFormed(j, vault, path) && j.Stable()
    requires forall i :: 0 <= i < |ops| ==> Apart(j, ops[i].path, path)
    ensures IsImage(RecordRun(r, j, ops).0, VaultRun(vault, j, ops).0, path)
    ensures WellFormed(j, VaultRun(vault, j, ops).0, path)
    ensures SameAnswersOn(ops, RecordRun(r, j, ops).1, VaultRun(vault, j, ops).1, path)
    decreases |ops|
  {
    if ops != [] {
      StepIsOutcome(r, j, ops[0]);
      OpKeepsLabels(r, j, ops[0], RecordStep(r, j, ops[0]).0, RecordStep(r, j, ops[0]).1);
      if ops[0].path == path { StepRefines(r, j, vault, ops[0]); } else { OtherStepRefines(r, j, vault, ops[0], path); }
      RunRefines(RecordStep(r, j, ops[0]).0, j, VaultStep(vault, j, ops[0]).0, ops[1..], path);
    }
  }

  /** Starting from the empty store, for each path that JSON keeps apart from the paths of the run. */
  lemma {:induction false} FailureFreeRefinement(j: JsonView, ops: seq<Op>, path: string)
    requires j.Stable() && forall i :: 0 <= i < |ops| ==> Apart(j, ops[i].path, path)
    ensures IsImage(RecordRun(EMPTY, j, ops).0, VaultRun(map[], j, ops).0, path)
    ensures WellFormed(j, VaultRun(map[], j, ops).0, path)
    ensures SameAnswersOn(ops, RecordRun(EMPTY, j, ops).1, VaultRun(map[], j, ops).1, path)
  {
    RunRefines(EMPTY, j, map[], ops, path);
  }

  /** And when JSON keeps all paths of the run, the whole store is the image of the whole vault. */
  lemma {:induction false} WholeRefinement(j: JsonView, ops: seq<Op>)
    requires j.Stable() && forall i :: 0 <= i < |ops| ==> j.Faithful(ops[i].path)
    ensures IsWholeImage(RecordRun(EMPTY, j, ops).0, VaultRun(map[], j, ops).0)
    ensures RecordRun(EMPTY, j, ops).1 == VaultRun(map[], j, ops).1
  {
    forall path ensures IsImage(RecordRun(EMPTY, j, ops).0, VaultRun(map[], j, ops).0, path) {
      FailureFreeRefinement(j, ops, path);
    }
    FailureFreeRefinement(j, ops, "");
    forall i | 0 <= i < |ops| ensures RecordRun(EMPTY, j, ops).1[i] == VaultRun(map[], j, ops).1[i] {
      FailureFreeRefinement(j, ops, ops[i].path);
    }
  }

  /** A version can be read iff the path exists, is not deleted, and the version is 0 or one of the last ten. */
  lemma {:induction false} GetSucceedsIff(r: Records, j: JsonView, vault: Vault, path: string, version: int)
    requires IsImage(r, vault, path) && WellFormed(j, vault, path)
    ensures GetSecret(r, path, version).Ok?
       <==> path in vault && vault[path].deletedAt.None? && (version == 0 || Retained(|vault[path].history|, version))
    ensures GetSecret(r, path, version).Ok? ==>
              GetSecret(r, path, version).value ==
                vault[path].history[(if version == 0 then |vault[path].history| else version) - 1]
  {
    ImageGet(r, vault, path, version);
  }

  /** What a write leaves to read: itself, and the versions still in the window. */
  lemma {:induction false} AppendReads(vault: Vault, path: string, value: JsonValue, now: Time, k: nat)
    ensures var h := PastOf(vault, path);
            var vault' := Append(vault, path, value, now);
            && VaultGet(vault', path, 0) == Ok(KVEntry(path, |h| + 1, value, now))
            && (1 <= k <= |h| ==> VaultGet(vault', path, k) == if k + 9 > |h| then Ok(h[k - 1]) else Err(NotFound))
  {
  }

  lemma {:induction false} DeleteHides(r: Records, j: JsonView, vault: Vault, path: string, deletedAt: Time, k: int)
    requires IsImage(r, vault, path) && WellFormed(j, vault, path) && j.Faithful(path) && path in vault
    ensures GetSecret(DeleteSecret(r, j, path, deletedAt).0, path, k) == Err(SecretDeleted)
  {
  }

  /** Set after Delete: the path is hidden in between, and afterwards its whole window can be read again. */
  lemma {:induction false} SetUndeletes(r: Records, j: JsonView, vault: Vault, path: string, deletedAt: Time,
                                        value: JsonValue, now: Time, k: nat)
    requires IsImage(r, vault, path) && WellFormed(j, vault, path) && j.Stable() && j.Faithful(path)
    requires path in vault && j.raw(value).Some?
    ensures var h := vault[path].history;
            var gone := DeleteSecret(r, j, path, deletedAt).0;
            var back := SetSecret(gone, j, path, value, now).0;
            && GetSecret(gone, path, k) == Err(SecretDeleted)
            && GetSecret(back, path, 0) == Ok(KVEntry(path, |h| + 1, j.raw(value).value, now))
            && (1 <= k <= |h| < k + 9 ==> GetSecret(back, path, k) == Ok(h[k - 1]))
  {
    var vault1 := vault[path := Secret(vault[path].history, Some(deletedAt))];
    DeleteHides(r, j, vault, path, deletedAt, k);
    ImageDelete(r, j, vault, path, deletedAt);
    WriteReads(DeleteSecret(r, j, path, deletedAt).0, j, vault1, path, value, now, k);
  }

  lemma {:induction false} WriteReads(r: Records, j: JsonView, vault: Vault, path: string, value: JsonValue,
                                      now: Time, k: nat)
    requires IsImage(r, vault, path) && WellFormed(j, vault, path) && j.Stable() && j.Faithful(path)
    requires j.raw(value).Some?
    ensures var h := PastOf(vault, path);
            var r' := SetSecret(r, j, path, value, now).0;
            && SetSecret(r, j, path, value, now).1 == Ok(KVEntry(path, |h| + 1, value, now))
            && GetSecret(r', path, 0) == Ok(KVEntry(path, |h| + 1, j.raw(value).value, now))
            && (1 <= k <= |h| ==> GetSecret(r', path, k) == if k + 9 > |h| then Ok(h[k - 1]) else Err(NotFound))
  {
    var r' := SetSecret(r, j, path, value, now).0;
    ImageAppend(r, j, vault, path, value, now);
    ImageGet(r', Append(vault, path, j.raw(value).value, now), path, 0);
    ImageGet(r', Append(vault, path, j.raw(value).value, now), path, k);
    AppendReads(vault, path, j.raw(value).value, now, k);
  }

  /**
   Rollback re-commits the value of a retained version as version n+1, even when the write prunes that
   very version. Of the other versions only the oldest of a full window is lost. On a deleted path it
   fails and changes nothing.
   */
  lemma {:induction false} RollbackKeepsValue(r: Records, j: JsonView, vault: Vault, path: string, k: nat, now: Time,
                                              v: nat)
    requires IsImage(r, vault, path) && WellFormed(j, vault, path) && j.Stable() && j.Faithful(path)
    requires path in vault && Retained(|vault[path].history|, k)
    ensures var h := vault[path].history;
            var (r', result) := RollbackSecret(r, j, path, k, now);
            if vault[path].deletedAt.Some? then r' == r && result == Err(SecretDeleted)
            else
              && result == Ok(KVEntry(path, |h| + 1, h[k - 1].value, now))
              && GetSecret(r', path, 0) == result
              && (1 <= v <= |h| ==>
                   GetSecret(r', path, v) == if v + 9 == |h| then Err(NotFound) else GetSecret(r, path, v))
  {
    var h := vault[path].history;
    ImageGet(r, vault, path, k);
    if vault[path].deletedAt.None? {
      assert j.raw(h[k - 1].value) == Some(h[k - 1].value);
      ImageGet(r, vault, path, v);
      assert RollbackSecret(r, j, path, k, now) == SetSecret(r, j, path, h[k - 1].value, now);
      WriteReads(r, j, vault, path, h[k - 1].value, now, v);
    }
  }

  // ---- version numbers over a run ----

  /** The version numbers that the successful writes to `path` have answered, in order. */
  function VersionsWritten(ops: seq<Op>, answers: seq<Answer>, path: string): seq<nat>
    requires |ops| == |answers|
  {
    if ops == [] then []
    else
      var rest := VersionsWritten(ops[1..], answers[1..], path);
      if ops[0].path == path && answers[0].Wrote? && answers[0].result.Ok?
      then [answers[0].result.value.version] + rest else rest
  }

  lemma {:induction false} VaultNumbering(vault: Vault, j: JsonView, ops: seq<Op>, answers: seq<Answer>, path: string)
    requires answers == VaultRun(vault, j, ops).1
    ensures |answers| == |ops|
    ensures forall i :: 0 <= i < |VersionsWritten(ops, answers, path)| ==>
              VersionsWritten(ops, answers, path)[i] == |PastOf(vault, path)| + 1 + i
    ensures |PastOf(VaultRun(vault, j, ops).0, path)| == |PastOf(vault, path)| + |VersionsWritten(ops, answers, path)|
    decreases |ops|
  {
    if ops != [] {
      var (vault', answer) := VaultStep(vault, j, ops[0]);
      VaultNumbering(vault', j, ops[1..], answers[1..], path);
      assert |PastOf(vault', path)| ==
        |PastOf(vault, path)| + if ops[0].path == path && answer.Wrote? && answer.result.Ok? then 1 else 0;
    }
  }

  /** Only the answers about the path count. */
  lemma {:induction false} SameNumbers(ops: seq<Op>, a: seq<Answer>, b: seq<Answer>, path: string)
    requires SameAnswersOn(ops, a, b, path)
    ensures VersionsWritten(ops, a, path) == VersionsWritten(ops, b, path)
  {
    if ops != [] {
      assert forall i :: 0 <= i < |ops[1..]| ==>
          ops[1..][i] == ops[i + 1] && a[1..][i] == a[i + 1] && b[1..][i] == b[i + 1];
      SameNumbers(ops[1..], a[1..], b[1..], path);
    }
  }

  /**
   The writes to a path are numbered 1, 2, 3, ... across deletes, rollbacks and writes to other paths, and
   the path is stored iff there was one.
   */
  lemma {:induction false} VersionsCountUp(j: JsonView, ops: seq<Op>, path: string)
    requires j.Stable() && forall i :: 0 <= i < |ops| ==> Apart(j, ops[i].path, path)
    ensures var written := VersionsWritten(ops, RecordRun(EMPTY, j, ops).1, path);
            && (forall i :: 0 <= i < |written| ==> written[i] == i + 1)
            && (path in RecordRun(EMPTY, j, ops).0.metas <==> written != [])
  {
    FailureFreeRefinement(j, ops, path);
    SameNumbers(ops, RecordRun(EMPTY, j, ops).1, VaultRun(map[], j, ops).1, path);
    VaultNumbering(map[], j, ops, VaultRun(map[], j, ops).1, path);
  }

  // ---- runs on arbitrary paths ----

  /** The records before each operation of a run, and at its end. */
  function RunStates(r: Records, j: JsonView, ops: seq<Op>): (states: seq<Records>)
    ensures |states| == |ops| + 1 && states[0] == r
    decreases |ops|
  {
    if ops == [] then [r] else [r] + RunStates(RecordStep(r, j, ops[0]).0, j, ops[1..])
  }

  /** A run without failures is one of the runs in which operations may be interrupted. */
  lemma {:induction false} RunIsItsStates(r: Records, j: JsonView, ops: seq<Op>)
    ensures var states, answers := RunStates(r, j, ops), RecordRun(r, j, ops).1;
            && states[|ops|] == RecordRun(r, j, ops).0
            && forall i :: 0 <= i < |ops| ==>
                 (states[i + 1], answers[i]) == RecordStep(states[i], j, ops[i])
                 && OpOutcome(states[i], j, ops[i], states[i + 1], answers[i])
    decreases |ops|
  {
    if ops != [] {
      var (r', answer) := RecordStep(r, j, ops[0]);
      RunIsItsStates(r', j, ops[1..]);
      StepIsOutcome(r, j, ops[0]);
      var states, answers := RunStates(r, j, ops), RecordRun(r, j, ops).1;
      forall i | 0 <= i < |ops|
        ensures (states[i + 1], answers[i]) == RecordStep(states[i], j, ops[i])
                && OpOutcome(states[i], j, ops[i], states[i + 1], answers[i])
      {
        if i > 0 {
          assert states[i] == RunStates(r', j, ops[1..])[i - 1] && states[i + 1] == RunStates(r', j, ops[1..])[i];
          assert answers[i] == RecordRun(r', j, ops[1..]).1[i - 1] && ops[i] == ops[1..][i - 1];
        }
      }
    }
  }

  /** Some operation of the run from the empty store has given metadata to this path. */
  ghost predicate StoredByRun(j: JsonView, ops: seq<Op>, path: string) {
    StoredBy(j, RunStates(EMPTY, j, ops), ops, RecordRun(EMPTY, j, ops).1, path)
  }

  ghost predicate VersionsHaveMeta(r: Records) {
    forall p, v: nat :: (p, v) in r.versions ==> p in r.metas
  }

  lemma {:induction false} SetHasMeta(r: Records, j: JsonView, path: string, value: JsonValue, now: Time)
    requires Labelled(r, j) && VersionsHaveMeta(r)
    ensures VersionsHaveMeta(SetSecret(r, j, path, value, now).0)
  {
    var r' := SetSecret(r, j, path, value, now).0;
    assert j.raw(value).Some? ==> path in r'.metas;
    forall p, v: nat | (p, v) in r'.versions ensures p in r'.metas {
      assert p == path || (p, v) in r.versions;
    }
  }

  lemma {:induction false} StepHasMeta(r: Records, j: JsonView, op: Op)
    requires Labelled(r, j) && VersionsHaveMeta(r)
    ensures VersionsHaveMeta(RecordStep(r, j, op).0)
  {
    match op
    case SetOp(p, value, now) => SetHasMeta(r, j, p, value, now);
    case DeleteOp(_, _) =>
    case RollbackOp(p, version, now) =>
      var source := GetSecret(r, p, version);
      if source.Ok? { SetHasMeta(r, j, p, source.value.value, now); }
  }

  lemma {:induction false} RunHasMeta(r: Records, j: JsonView, ops: seq<Op>)
    requires Labelled(r, j) && VersionsHaveMeta(r)
    ensures VersionsHaveMeta(RecordRun(r, j, ops).0)
    decreases |ops|
  {
    if ops != [] {
      StepIsOutcome(r, j, ops[0]);
      OpKeepsLabels(r, j, ops[0], RecordStep(r, j, ops[0]).0, RecordStep(r, j, ops[0]).1);
      StepHasMeta(r, j, ops[0]);
      RunHasMeta(RecordStep(r, j, ops[0]).0, j, ops[1..]);
    }
  }

  /** After any run without failures, on any paths: exactly these paths have records. */
  lemma {:induction false} StoredAfterRun(j: JsonView, ops: seq<Op>, path: string)
    ensures path in RecordRun(EMPTY, j, ops).0.metas <==> StoredByRun(j, ops, path)
    ensures forall v: nat :: (path, v) in RecordRun(EMPTY, j, ops).0.versions ==> StoredByRun(j, ops, path)
  {
    RunIsItsStates(EMPTY, j, ops);
    HasMetaIff(RunStates(EMPTY, j, ops), j, ops, RecordRun(EMPTY, j, ops).1, path);
    RunHasMeta(EMPTY, j, ops);
  }

  // ---- paths that JSON does not keep ----

  /**
   Metadata is written under the path it carries but read under the caller's path. A second Set of a path
   therefore shows exactly when the path survives JSON. Otherwise the first value stays, and the metadata
   lands under the name that JSON makes of the path, whatever is stored there.
   */
  lemma {:induction false} SecondSetShowsIff(r: Records, j: JsonView, path: string, a: JsonValue, b: JsonValue,
                                             now: Time)
    requires path !in r.metas && j.raw(a).Some? && j.raw(b).Some?
    ensures var q := j.text(path);
            var once := SetSecret(r, j, path, a, now).0;
            var twice := SetSecret(once, j, path, b, now).0;
            && (q == path <==> GetSecret(twice, path, 0) == Ok(KVEntry(path, 2, j.raw(b).value, now)))
            && (q != path ==> GetSecret(twice, path, 0) == GetSecret(once, path, 0))
            && (q != path ==> SameOn(r, once, q) && q in twice.metas && twice.metas[q] == KVMeta(j.text(q), 2, None))
            && (forall v: nat :: q != path ==>
                  ((q, v) in r.versions <==> (q, v) in twice.versions) &&
                    ((q, v) in r.versions ==> r.versions[(q, v)] == twice.versions[(q, v)]))
  {
  }

  /**
   And a Delete hides the secret exactly when the path survives JSON. Otherwise it marks the path that JSON
   makes of it.
   */
  lemma {:induction false} DeleteHidesIff(r: Records, j: JsonView, path: string, a: JsonValue, now: Time)
    requires path !in r.metas && j.raw(a).Some?
    ensures var q := j.text(path);
            var once := SetSecret(r, j, path, a, now).0;
            var gone := DeleteSecret(once, j, path, now).0;
            && (q == path <==> GetSecret(gone, path, 0) == Err(SecretDeleted))
            && (q != path ==> GetSecret(gone, path, 0) == GetSecret(once, path, 0))
            && (q != path ==> SameOn(r, once, q) && q in gone.metas && gone.metas[q] == KVMeta(j.text(q), 1, Some(now)))
            && (forall v: nat :: q != path ==>
                  ((q, v) in r.versions <==> (q, v) in gone.versions) &&
                    ((q, v) in r.versions ==> r.versions[(q, v)] == gone.versions[(q, v)]))
  {
  }

  /**
   What two Sets of a new path do to a live secret that happens to have the name JSON makes of the path:
   its version count is back at 2, later versions cannot be named any more, and its next write is version 3 again.
   */
  lemma {:induction false} SecondSetHidesOther(r: Records, j: JsonView, vault: Vault, path: string, a: JsonValue,
                                               b: JsonValue, now: Time, k: int)
    requires path !in r.metas && j.raw(a).Some? && j.raw(b).Some? && !j.Faithful(path)
    requires var q := j.text(path);
             IsImage(r, vault, q) && q in vault && vault[q].deletedAt.None?
    ensures var q := j.text(path);
            var h := vault[q].history;
            var twice := SetSecret(SetSecret(r, j, path, a, now).0, j, path, b, now).0;
            && GetSecret(twice, q, k) ==
                 (if k < 0 || k > 2 then Err(VersionNotFound)
                  else var v := if k == 0 then 2 else k;
                       if Retained(|h|, v) then Ok(h[v - 1]) else Err(NotFound))
            && SetSecret(twice, j, q, b, now).1 == Ok(KVEntry(q, 3, b, now))
  {
    var q := j.text(path);
    SecondSetShowsIff(r, j, path, a, b, now);
    var twice := SetSecret(SetSecret(r, j, path, a, now).0, j, path, b, now).0;
    var v := if k == 0 then 2 else k;
    if 1 <= v <= 2 {
      assert (q, v) in twice.versions <==> (q, v) in r.versions;
    }
  }

  /** And a Set and a Delete of the new path delete that other secret, with all its versions. */
  lemma {:induction false} DeleteHidesOther(r: Records, j: JsonView, path: string, a: JsonValue, now: Time, k: int)
    requires path !in r.metas && j.raw(a).Some? && !j.Faithful(path)
    ensures GetSecret(DeleteSecret(SetSecret(r, j, path, a, now).0, j, path, now).0, j.text(path), k) ==
        Err(SecretDeleted)
  {
    DeleteHidesIff(r, j, path, a, now);
  }

  lemma {:induction false} StepThenRun(r: Records, j: JsonView, op: Op, rest: seq<Op>)
    ensures RecordRun(r, j, [op] + rest).0 == RecordRun(RecordStep(r, j, op).0, j, rest).0
    ensures RecordRun(r, j, [op] + rest).1 == [RecordStep(r, j, op).1] + RecordRun(RecordStep(r, j, op).0, j, rest).1
  {
    assert ([op] + rest)[1..] == rest;
  }

  /**
   Two Sets of a path that JSON changes, from the empty store: the path that JSON makes of it has metadata,
   although nobody has written it.
   */
  lemma {:induction false} UnwrittenPathIsStored(j: JsonView, path: string, a: JsonValue, b: JsonValue, now: Time)
    requires j.raw(a).Some? && j.raw(b).Some? && !j.Faithful(path)
    ensures var ops := [SetOp(path, a, now), SetOp(path, b, now)];
            var (r, answers) := RecordRun(EMPTY, j, ops);
            && j.text(path) in r.metas && path in r.metas
            && (forall p :: p != path ==> VersionsWritten(ops, answers, p) == [])
  {
    var first, second := SetOp(path, a, now), SetOp(path, b, now);
    assert [first, second] == [first] + ([second] + []);
    StepThenRun(EMPTY, j, first, [second] + []);
    StepThenRun(RecordStep(EMPTY, j, first).0, j, second, []);
    SecondSetShowsIff(EMPTY, j, path, a, b, now);
    var ops := [first, second];
    var answers := RecordRun(EMPTY, j, ops).1;
    forall p | p != path ensures VersionsWritten(ops, answers, p) == [] {
      assert ops[1..] == [second] && ops[1..][1..] == [];
      assert VersionsWritten(ops[1..][1..], answers[1..][1..], p) == [];
    }
  }

  lemma {:induction false} ThreeSteps(r: Records, j: JsonView, a: Op, b: Op, c: Op)
    ensures var (r1, first) := RecordStep(r, j, a);
            var (r2, second) := RecordStep(r1, j, b);
            var (r3, third) := RecordStep(r2, j, c);
            RecordRun(r, j, [a, b, c]) == (r3, [first, second, third])
  {
    var r1 := RecordStep(r, j, a).0;
    var r2 := RecordStep(r1, j, b).0;
    assert [a, b, c] == [a] + ([b] + ([c] + []));
    StepThenRun(r, j, a, [b] + ([c] + []));
    StepThenRun(r1, j, b, [c] + []);
    StepThenRun(r2, j, c, []);
    var first, second, third := RecordStep(r, j, a).1, RecordStep(r1, j, b).1, RecordStep(r2, j, c).1;
    assert RecordRun(r, j, [a, b, c]).1 == [first] + ([second] + ([third] + [])) == [first, second, third];
  }

  /** One such run from the empty store: three callers are told of success, and the secret of the first is gone. */
  lemma {:induction false} BadPathDeletesGoodPath()
    ensures var ops := [SetOp(GOOD_PATH, [1], 0), SetOp(BAD_PATH, [2], 1), DeleteOp(BAD_PATH, 2)];
            var (r, answers) := RecordRun(EMPTY, REPAIRING, ops);
            && answers == [Wrote(Ok(KVEntry(GOOD_PATH, 1, [1], 0))), Wrote(Ok(KVEntry(BAD_PATH, 1, [2], 1))),
                 Deleted(None)]
            && GetSecret(r, GOOD_PATH, 0) == Err(SecretDeleted)
            && GetSecret(r, BAD_PATH, 0) == Ok(KVEntry(GOOD_PATH, 1, [2], 1))
  {
    var a, b, c := SetOp(GOOD_PATH, [1], 0), SetOp(BAD_PATH, [2], 1), DeleteOp(BAD_PATH, 2);
    BadPathIsRepaired();
    ThreeSteps(EMPTY, REPAIRING, a, b, c);
    var one := RecordStep(EMPTY, REPAIRING, a).0;
    assert one.metas == map[GOOD_PATH := KVMeta(GOOD_PATH, 1, None)];
    var two := RecordStep(one, REPAIRING, b).0;
    assert BAD_PATH !in one.metas && two.metas[BAD_PATH] == KVMeta(GOOD_PATH, 1, None);
  }

  // ---- the image is a special case of the tolerant reading ----

  lemma {:induction false} ImageIsConsistent(r: Records, j: JsonView, vault: Vault, path: string)
    requires IsImage(r, vault, path) && WellFormed(j, vault, path)
    ensures Consistent(r, path, PastOf(vault, path))
  {
  }
}
