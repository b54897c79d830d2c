/**
 The versioned secret store at the level of its decoded records: one metadata record per path and
 one record per version, each written and removed by its own store step.
 */
module KVRecords {
  import opened Wrappers
  import opened Json

  const MAX_VERSIONS: nat := 10

  datatype KVMeta = KVMeta(path: string, currentVersion: nat, deletedAt: Option<Time>)

  datatype KVEntry = KVEntry(path: string, version: nat, value: JsonValue, createdAt: Time)

  type VersionRef = (string, nat)

  datatype Records = Records(metas: map<string, KVMeta>, versions: map<VersionRef, KVEntry>)

  /** What the metadata becomes when it is written as JSON and read back. */
  function StoredMeta(j: JsonView, meta: KVMeta): KVMeta {
    meta.(path := j.text(meta.path))
  }

  function StoredEntry(j: JsonView, entry: KVEntry): Option<KVEntry> {
    match j.raw(entry.value)
    case None => None
    case Some(value) => Some(entry.(path := j.text(entry.path), value := value))
  }

  // ---- the store steps ----

  function PutMeta(r: Records, j: JsonView, meta: KVMeta): Records {
    r.(metas := r.metas[meta.path := StoredMeta(j, meta)])
  }

  function PutVersion(r: Records, j: JsonView, entry: KVEntry): Records {
    match StoredEntry(j, entry)
    case None => r
    case Some(stored) => r.(versions := r.versions[(entry.path, entry.version) := stored])
  }

  function DropVersion(r: Records, path: string, version: nat): Records {
    r.(versions := r.versions - {(path, version)})
  }

  function Prune(r: Records, path: string, current: nat): Records {
    if current > MAX_VERSIONS then DropVersion(r, path, current - MAX_VERSIONS) else r
  }

  // ---- the operations, when nothing fails ----

  /** The metadata that the next write of `path` commits. */
  function NextMeta(r: Records, path: string): KVMeta {
    if path in r.metas
    then r.metas[path].(deletedAt := None, currentVersion := r.metas[path].currentVersion + 1)
    else KVMeta(path, 1, None)
  }

  function NextEntry(r: Records, path: string, value: JsonValue, now: Time): KVEntry {
    KVEntry(path, NextMeta(r, path).currentVersion, value, now)
  }

  /** The records after the version and the metadata have been written, before pruning. */
  function Committed(r: Records, j: JsonView, path: string, value: JsonValue, now: Time): Records {
    PutMeta(PutVersion(r, j, NextEntry(r, path, value, now)), j, NextMeta(r, path))
  }

  function SetSecret(r: Records, j: JsonView, path: string, value: JsonValue, now: Time): (Records, Result<KVEntry>) {
    if j.raw(value).None? then (r, Err(MarshalFailed))
    else (Prune(Committed(r, j, path, value, now), path, NextMeta(r, path).currentVersion),
          Ok(NextEntry(r, path, value, now)))
  }

  /** The first half of Get: which version the metadata lets the caller read. */
  function ResolveVersion(r: Records, path: string, version: int): Result<nat> {
    if path !in r.metas then Err(NotFound)
    else if r.metas[path].deletedAt.Some? then Err(SecretDeleted)
    else
      var current := r.metas[path].currentVersion;
      var v := if version == 0 then current else version;
      if v < 1 || v > current then Err(VersionNotFound) else Ok(v)
  }

  /** The second half of Get. */
  function ReadVersion(r: Records, path: string, version: nat): Result<KVEntry> {
    if (path, version) in r.versions then Ok(r.versions[(path, version)]) else Err(NotFound)
  }

  function GetSecret(r: Records, path: string, version: int): Result<KVEntry> {
    match ResolveVersion(r, path, version)
    case Err(e) => Err(e)
    case Ok(v) => ReadVersion(r, path, v)
  }

  function DeleteSecret(r: Records, j: JsonView, path: string, now: Time): (Records, Option<Error>) {
    if path !in r.metas then (r, Some(NotFound))
    else (PutMeta(r, j, r.metas[path].(deletedAt := Some(now))), None)
  }

  function RollbackSecret(r: Records, j: JsonView, path: string, version: int, now: Time): (Records, Result<KVEntry>) {
    match GetSecret(r, path, version)
    case Err(e) => (r, Err(e))
    case Ok(source) => SetSecret(r, j, path, source.value, now)
  }

  /** The version records from..to that exist, without their values. */
  function ListedFrom(r: Records, path: string, from: nat, last: nat): seq<KVEntry>
    decreases last + 1 - from
  {
    if from > last then []
    else
      var rest := ListedFrom(r, path, from + 1, last);
      if (path, from) in r.versions then [r.versions[(path, from)].(value := [])] + rest else rest
  }

  function OldestRetained(current: nat): nat {
    if current >= MAX_VERSIONS then current - MAX_VERSIONS + 1 else 1
  }

  function ListVersions(r: Records, path: string): Result<seq<KVEntry>> {
    if path !in r.metas then Err(NotFound)
    else
      var current := r.metas[path].currentVersion;
      Ok(ListedFrom(r, path, OldestRetained(current), current))
  }

  datatype Op =
    | SetOp(path: string, value: JsonValue, now: Time)
    | DeleteOp(path: string, now: Time)
    | RollbackOp(path: string, version: int, now: Time)

  datatype Answer = Wrote(result: Result<KVEntry>) | Deleted(err: Option<Error>)

  function RecordStep(r: Records, j: JsonView, op: Op): (Records, Answer) {
    match op
    case SetOp(p, value, now) => var (r', result) := SetSecret(r, j, p, value, now); (r', Wrote(result))
    case DeleteOp(p, now) => var (r', err) := DeleteSecret(r, j, p, now); (r', Deleted(err))
    case RollbackOp(p, version, now) => var (r', result) := RollbackSecret(r, j, p, version, now); (r', Wrote(result))
  }

  // ---- the operations, when any store step may fail ----

  /** All that a Set may leave behind and answer: nothing, an orphan version, a commit, a pruned commit. */
  ghost predicate SetOutcome(r: Records, j: JsonView, path: string, value: JsonValue, now: Time, r': Records,
                             result: Result<KVEntry>)
  {
    if result.Ok? then
      && j.raw(value).Some?
      && result.value == NextEntry(r, path, value, now)
      && (r' == Committed(r, j, path, value, now) || r' == SetSecret(r, j, path, value, now).0)
    else
      r' == r || r' == PutVersion(r, j, NextEntry(r, path, value, now))
  }

  ghost predicate DeleteOutcome(r: Records, j: JsonView, path: string, now: Time, r': Records, err: Option<Error>) {
    if err.None? then path in r.metas && r' == DeleteSecret(r, j, path, now).0 else r' == r
  }

  ghost predicate RollbackOutcome(r: Records, j: JsonView, path: string, version: int, now: Time, r': Records,
                                  result: Result<KVEntry>)
  {
    var source := GetSecret(r, path, version);
    if source.Err? then result.Err? && r' == r else SetOutcome(r, j, path, source.value.value, now, r', result)
  }

  ghost predicate OpOutcome(r: Records, j: JsonView, op: Op, r': Records, answer: Answer) {
    match op
    case SetOp(p, value, now) => answer.Wrote? && SetOutcome(r, j, p, value, now, r', answer.result)
    case DeleteOp(p, now) => answer.Deleted? && DeleteOutcome(r, j, p, now, r', answer.err)
    case RollbackOp(p, version, now) => answer.Wrote? && RollbackOutcome(r, j, p, version, now, r', answer.result)
  }

  // ---- what the records of a path mean ----

  predicate Retained(current: nat, version: int) {
    1 <= version <= current < version + MAX_VERSIONS
  }

  /** The k-th committed record is version k of this path. */
  ghost predicate IsHistory(path: string, h: seq<KVEntry>) {
    forall i :: 0 <= i < |h| ==> h[i].version == i + 1 && h[i].path == path
  }

  /** Values as they come back from JSON; writing them again does not change them. */
  ghost predicate Canonical(j: JsonView, h: seq<KVEntry>) {
    forall i :: 0 <= i < |h| ==> j.raw(h[i].value) == Some(h[i].value)
  }

  /**
   The records of `path` stand for the committed history `h`, even if operations were interrupted: the
   metadata counts the history, the last ten versions are there, and whatever else is there is either one
   orphan behind the end or a leftover that still holds its committed value.
   */
  ghost predicate Consistent(r: Records, path: string, h: seq<KVEntry>) {
    && IsHistory(path, h)
    && (path in r.metas <==> h != [])
    && (path in r.metas ==> r.metas[path].path == path && r.metas[path].currentVersion == |h|)
    && (forall v: nat :: Retained(|h|, v) ==> (path, v) in r.versions)
    && (forall v: nat :: (path, v) in r.versions ==>
         1 <= v <= |h| + 1 && (v <= |h| ==> r.versions[(path, v)] == h[v - 1]))
  }

  /** The record that a write of `value` commits to a path with history `h`. */
  function CommittedEntry(j: JsonView, path: string, h: seq<KVEntry>, value: JsonValue, now: Time): KVEntry
    requires j.raw(value).Some?
  {
    KVEntry(path, |h| + 1, j.raw(value).value, now)
  }

  /** Get answers with the committed value of the version it names, or with the error that applies. */
  lemma {:induction false} GetIsCommitted(r: Records, path: string, h: seq<KVEntry>, version: int)
    requires Consistent(r, path, h)
    ensures var v := if version == 0 then |h| else version;
            match GetSecret(r, path, version)
            case Ok(e) => h != [] && r.metas[path].deletedAt.None? && 1 <= v <= |h| && e == h[v - 1]
            case Err(error) =>
              if h == [] then error == NotFound
              else if r.metas[path].deletedAt.Some? then error == SecretDeleted
              else if v < 1 || v > |h| then error == VersionNotFound
              else error == NotFound && v + MAX_VERSIONS <= |h|
  {
    var v := if version == 0 then |h| else version;
    if 1 <= v <= |h| && (path, v) !in r.versions {
      assert !Retained(|h|, v);
    }
  }

  lemma {:induction false} ListedIsHistory(r: Records, path: string, h: seq<KVEntry>, from: nat)
    requires Consistent(r, path, h)
    requires OldestRetained(|h|) <= from <= |h| + 1
    ensures ListedFrom(r, path, from, |h|) ==
        seq(|h| + 1 - from, i requires 0 <= i < |h| + 1 - from => h[from - 1 + i].(value := []))
    decreases |h| + 1 - from
  {
    if from <= |h| {
      assert Retained(|h|, from);
      ListedIsHistory(r, path, h, from + 1);
    }
  }

  /**
   Versions lists exactly the last min(n, 10) committed versions, ascending and without values. Neither
   orphans, nor leftovers, nor the deleted flag show.
   */
  lemma {:induction false} VersionsListed(r: Records, path: string, h: seq<KVEntry>)
    requires Consistent(r, path, h)
    ensures h == [] ==> ListVersions(r, path) == Err(NotFound)
    ensures h != [] ==> ListVersions(r, path).Ok?
    ensures h != [] ==>
      var n := |h|;
      var count := if n < MAX_VERSIONS then n else MAX_VERSIONS;
      var listed := ListVersions(r, path).value;
      && |listed| == count
      && forall i :: 0 <= i < count ==>
           listed[i].version == n - count + 1 + i && listed[i] == h[n - count + i].(value := [])
  {
    if h != [] {
      ListedIsHistory(r, path, h, OldestRetained(|h|));
    }
  }

  /** Deleting a secret does not change what Versions lists. */
  lemma {:induction false} VersionsIgnoreDelete(r: Records, j: JsonView, path: string, h: seq<KVEntry>, now: Time)
    requires Consistent(r, path, h) && j.Faithful(path)
    ensures ListVersions(DeleteSecret(r, j, path, now).0, path) == ListVersions(r, path)
  {
    var r' := DeleteSecret(r, j, path, now).0;
    if h != [] {
      assert Consistent(r', path, h);
      ListedIsHistory(r, path, h, OldestRetained(|h|));
      ListedIsHistory(r', path, h, OldestRetained(|h|));
    }
  }

  // ---- paths and the names JSON makes of them ----

  /** Every metadata record carries the name that JSON makes of the path it is stored under. */
  ghost predicate Labelled(r: Records, j: JsonView) {
    forall p :: p in r.metas ==> r.metas[p].path == j.text(p)
  }

  /** JSON turns `p` into `path` only if it is `path`. For p == path this says that the path survives JSON. */
  predicate Apart(j: JsonView, p: string, path: string) {
    j.text(p) == path <==> p == path
  }

  ghost predicate SameOn(r: Records, r': Records, path: string) {
    && (path in r.metas <==> path in r'.metas)
    && (path in r.metas ==> r.metas[path] == r'.metas[path])
    && (forall v: nat :: (path, v) in r.versions <==> (path, v) in r'.versions)
    && (forall v: nat :: (path, v) in r.versions ==> r.versions[(path, v)] == r'.versions[(path, v)])
  }

  lemma {:induction false} SameListed(r: Records, r': Records, path: string, from: nat, last: nat)
    requires SameOn(r, r', path)
    ensures ListedFrom(r, path, from, last) == ListedFrom(r', path, from, last)
    decreases last + 1 - from
  {
    if from <= last {
      SameListed(r, r', path, from + 1, last);
    }
  }

  /** A path whose records are the same answers every read the same. */
  lemma {:induction false} SameAnswers(r: Records, r': Records, path: string)
    requires SameOn(r, r', path)
    ensures forall version :: GetSecret(r, path, version) == GetSecret(r', path, version)
    ensures ListVersions(r, path) == ListVersions(r', path)
  {
    if path in r.metas {
      SameListed(r, r', path, OldestRetained(r.metas[path].currentVersion), r.metas[path].currentVersion);
    }
  }

  /** Each store step touches one path. */
  lemma {:induction false} StepsStayOnPath(r: Records, j: JsonView, meta: KVMeta, entry: KVEntry, path: string,
                                           current: nat, other: string)
    ensures meta.path != other ==> SameOn(r, PutMeta(r, j, meta), other)
    ensures entry.path != other ==> SameOn(r, PutVersion(r, j, entry), other)
    ensures path != other ==> SameOn(r, Prune(r, path, current), other)
  {
  }

  /** A Set touches its own path and the one its metadata is named after. */
  lemma {:induction false} WritesStayOnPath(r: Records, j: JsonView, path: string, value: JsonValue, now: Time,
                                            other: string)
    requires path != other && NextMeta(r, path).path != other
    ensures SameOn(r, PutVersion(r, j, NextEntry(r, path, value, now)), other)
    ensures SameOn(r, Committed(r, j, path, value, now), other)
    ensures SameOn(r, SetSecret(r, j, path, value, now).0, other)
  {
  }

  lemma {:induction false} SetKeepsLabels(r: Records, j: JsonView, path: string, value: JsonValue, now: Time,
                                          r': Records, result: Result<KVEntry>)
    requires Labelled(r, j) && SetOutcome(r, j, path, value, now, r', result)
    ensures Labelled(r', j)
  {
  }

  /** Whatever an operation does, for whatever path, and wherever it stops: the labels stay right. */
  lemma {:induction false} OpKeepsLabels(r: Records, j: JsonView, op: Op, r': Records, answer: Answer)
    requires Labelled(r, j) && OpOutcome(r, j, op, r', answer)
    ensures Labelled(r', j)
  {
    match op
    case SetOp(p, value, now) => SetKeepsLabels(r, j, p, value, now, r', answer.result);
    case DeleteOp(p, now) =>
    case RollbackOp(p, version, now) =>
      var source := GetSecret(r, p, version);
      if source.Ok? { SetKeepsLabels(r, j, p, source.value.value, now, r', answer.result); }
  }

  /**
   Whatever an operation on a path does, and wherever it stops, only that path and the one JSON makes of
   it can notice. The paths are arbitrary byte strings.
   */
  lemma {:induction false} OtherPathsUntouched(r: Records, j: JsonView, op: Op, r': Records, answer: Answer,
                                               other: string)
    requires Labelled(r, j) && OpOutcome(r, j, op, r', answer)
    requires other != op.path && other != j.text(op.path)
    ensures SameOn(r, r', other)
    ensures forall version :: GetSecret(r, other, version) == GetSecret(r', other, version)
    ensures ListVersions(r, other) == ListVersions(r', other)
  {
    match op {
      case SetOp(p, value, now) => WritesStayOnPath(r, j, p, value, now, other);
      case DeleteOp(p, now) =>
      case RollbackOp(p, version, now) =>
        var source := GetSecret(r, p, version);
        if source.Ok? { WritesStayOnPath(r, j, p, source.value.value, now, other); }
    }
    SameAnswers(r, r', other);
  }

  /** The metadata that a successful operation on a stored path writes, before JSON. */
  function WrittenMeta(r: Records, op: Op): KVMeta {
    if op.DeleteOp? && op.path in r.metas then r.metas[op.path].(deletedAt := Some(op.now)) else NextMeta(r, op.path)
  }

  predicate Succeeded(answer: Answer) {
    match answer
    case Wrote(result) => result.Ok?
    case Deleted(err) => err.None?
  }

  /** A successful operation on a stored path writes its metadata under the name that JSON makes of the path. */
  lemma {:induction false} MetaLandsUnderText(r: Records, j: JsonView, op: Op, r': Records, answer: Answer)
    requires Labelled(r, j) && OpOutcome(r, j, op, r', answer) && Succeeded(answer) && op.path in r.metas
    ensures var q := j.text(op.path);
            && q in r'.metas && r'.metas[q] == StoredMeta(j, WrittenMeta(r, op))
            && r'.metas[q].currentVersion == r.metas[op.path].currentVersion + (if op.DeleteOp? then 0 else 1)
            && r'.metas[q].deletedAt == (if op.DeleteOp? then Some(op.now) else None)
            && (q != op.path ==> r'.metas[op.path] == r.metas[op.path])
            && (forall v: nat :: q != op.path ==>
                  ((q, v) in r'.versions <==> (q, v) in r.versions) &&
                    ((q, v) in r.versions ==> r'.versions[(q, v)] == r.versions[(q, v)]))
  {
  }

  /**
   One successful operation leaves every other path alone exactly when its path is new, or survives JSON,
   or the metadata stored under the name that JSON makes of it already is what is written there.
   */
  lemma {:induction false} OthersUntouchedIff(r: Records, j: JsonView, op: Op, r': Records, answer: Answer)
    requires Labelled(r, j) && OpOutcome(r, j, op, r', answer) && Succeeded(answer)
    ensures (forall other :: other != op.path ==> SameOn(r, r', other)) <==>
              || op.path !in r.metas
              || j.Faithful(op.path)
              || (j.text(op.path) in r.metas && r.metas[j.text(op.path)] == StoredMeta(j, WrittenMeta(r, op)))
  {
    var q := j.text(op.path);
    forall other | other != op.path && other != q ensures SameOn(r, r', other) {
      OtherPathsUntouched(r, j, op, r', answer, other);
    }
    if op.path in r.metas {
      MetaLandsUnderText(r, j, op, r', answer);
      if q != op.path {
        assert SameOn(r, r', q) <==> q in r.metas && r.metas[q] == r'.metas[q];
      }
    } else if q != op.path {
      NewPathStaysPut(r, j, op, r', answer, q);
    }
  }

  lemma {:induction false} NewPathStaysPut(r: Records, j: JsonView, op: Op, r': Records, answer: Answer, other: string)
    requires OpOutcome(r, j, op, r', answer) && op.path !in r.metas && other != op.path
    ensures SameOn(r, r', other)
  {
    if op.SetOp? { WritesStayOnPath(r, j, op.path, op.value, op.now, other); }
  }

  /** Writes to a path leave the other paths of every store alone exactly when the path survives JSON. */
  lemma {:induction false} IndependentIffFaithful(j: JsonView, path: string, value: JsonValue, now: Time)
    requires j.raw(value).Some?
    ensures j.Faithful(path) <==>
              forall r, other :: Labelled(r, j) && other != path ==>
                SameOn(r, SetSecret(r, j, path, value, now).0, other)
  {
    if j.Faithful(path) {
      forall r, other | Labelled(r, j) && other != path ensures SameOn(r, SetSecret(r, j, path, value, now).0, other) {
        WritesStayOnPath(r, j, path, value, now, other);
      }
    } else {
      var r := SetSecret(EMPTY, j, path, value, now).0;
      assert Labelled(r, j);
      assert j.text(path) !in r.metas && j.text(path) in SetSecret(r, j, path, value, now).0.metas;
      assert !SameOn(r, SetSecret(r, j, path, value, now).0, j.text(path));
    }
  }

  // ---- every step keeps the meaning ----

  /** A path whose records are the same stands for the same history. */
  lemma {:induction false} SameConsistent(r: Records, r': Records, path: string, h: seq<KVEntry>)
    requires Consistent(r, path, h) && SameOn(r, r', path)
    ensures Consistent(r', path, h)
  {
  }

  /** Writing the version behind the end of the history is not yet visible. */
  lemma {:induction false} OrphanKeeps(r: Records, j: JsonView, path: string, h: seq<KVEntry>, entry: KVEntry)
    requires Consistent(r, path, h)
    requires entry.path == path && entry.version == |h| + 1
    ensures Consistent(PutVersion(r, j, entry), path, h)
  {
  }

  /** Writing the metadata commits the version that is already there. */
  lemma {:induction false} CommitKeeps(r: Records, j: JsonView, path: string, h: seq<KVEntry>, meta: KVMeta,
                                       stored: KVEntry)
    requires Consistent(r, path, h) && j.Faithful(path)
    requires meta.path == path && meta.currentVersion == |h| + 1
    requires stored.path == path && stored.version == |h| + 1
    requires (path, |h| + 1) in r.versions && r.versions[(path, |h| + 1)] == stored
    ensures Consistent(PutMeta(r, j, meta), path, h + [stored])
  {
    var n, r' := |h|, PutMeta(r, j, meta);
    forall v: nat | Retained(n + 1, v) ensures (path, v) in r'.versions {
      assert v == n + 1 || Retained(n, v);
    }
  }

  /** Dropping the version that has just left the window keeps the rest. */
  lemma {:induction false} PruneKeeps(r: Records, path: string, h: seq<KVEntry>)
    requires Consistent(r, path, h)
    ensures Consistent(Prune(r, path, |h|), path, h)
  {
  }

  /** Rewriting the metadata of a path with another deleted flag keeps its history. */
  lemma {:induction false} FlagKeeps(r: Records, j: JsonView, path: string, h: seq<KVEntry>, meta: KVMeta)
    requires Consistent(r, path, h) && j.Faithful(path) && h != []
    requires meta.path == path && meta.currentVersion == |h|
    ensures Consistent(PutMeta(r, j, meta), path, h)
  {
  }

  // ---- every operation keeps the meaning, wherever it stops ----

  /** A Set that answers Ok has appended one version; a Set that fails has not changed the history. */
  lemma {:induction false} SetTolerant(r: Records, j: JsonView, path: string, h: seq<KVEntry>, value: JsonValue,
                                       now: Time, r': Records, result: Result<KVEntry>)
    requires Consistent(r, path, h) && j.Faithful(path)
    requires SetOutcome(r, j, path, value, now, r', result)
    ensures result.Err? ==> Consistent(r', path, h)
    ensures result.Ok? ==>
      && j.raw(value).Some?
      && result.value == KVEntry(path, |h| + 1, value, now)
      && Consistent(r', path, h + [CommittedEntry(j, path, h, value, now)])
      && r'.metas[path].deletedAt.None?
  {
    var entry, meta := NextEntry(r, path, value, now), NextMeta(r, path);
    OrphanKeeps(r, j, path, h, entry);
    if result.Ok? {
      var stored := CommittedEntry(j, path, h, value, now);
      CommitKeeps(PutVersion(r, j, entry), j, path, h, meta, stored);
      PruneKeeps(Committed(r, j, path, value, now), path, h + [stored]);
    }
  }

  /** A Delete does not touch the history, whether it fails or not. */
  lemma {:induction false} DeleteTolerant(r: Records, j: JsonView, path: string, h: seq<KVEntry>, now: Time,
                                          r': Records, err: Option<Error>)
    requires Consistent(r, path, h) && j.Faithful(path)
    requires DeleteOutcome(r, j, path, now, r', err)
    ensures Consistent(r', path, h)
    ensures err.None? ==> path in r'.metas && r'.metas[path].deletedAt == Some(now)
  {
    if err.None? {
      FlagKeeps(r, j, path, h, r.metas[path].(deletedAt := Some(now)));
    }
  }

  /** A Rollback that answers Ok has appended the old value again; one that fails has not changed the history. */
  lemma {:induction false} RollbackTolerant(r: Records, j: JsonView, path: string, h: seq<KVEntry>, version: int,
                                            now: Time, r': Records, result: Result<KVEntry>)
    requires Consistent(r, path, h) && j.Faithful(path) && Canonical(j, h)
    requires RollbackOutcome(r, j, path, version, now, r', result)
    ensures result.Err? ==> Consistent(r', path, h)
    ensures result.Ok? ==>
      var v := if version == 0 then |h| else version;
      && 1 <= v <= |h|
      && result.value == KVEntry(path, |h| + 1, h[v - 1].value, now)
      && Consistent(r', path, h + [result.value])
  {
    GetIsCommitted(r, path, h, version);
    var source := GetSecret(r, path, version);
    if source.Ok? {
      SetTolerant(r, j, path, h, source.value.value, now, r', result);
    }
  }

  // ---- runs in which any store step may fail ----

  /** What callers were told about one path: the history made of the writes that answered Ok. */
  function Acknowledged(j: JsonView, ops: seq<Op>, answers: seq<Answer>, path: string): seq<KVEntry>
    requires |ops| == |answers|
  {
    if ops == [] then []
    else
      var last := |ops| - 1;
      Acknowledge(j, Acknowledged(j, ops[..last], answers[..last], path), ops[last], answers[last], path)
  }

  /** One more answer. */
  function Acknowledge(j: JsonView, h: seq<KVEntry>, op: Op, answer: Answer, path: string): seq<KVEntry> {
    match answer
    case Wrote(Ok(e)) =>
      if op.path == path && j.raw(e.value).Some? then h + [e.(value := j.raw(e.value).value)] else h
    case _ => h
  }

  lemma {:induction false} OpTolerant(r: Records, j: JsonView, path: string, h: seq<KVEntry>, op: Op, r': Records,
                                      answer: Answer)
    requires Consistent(r, path, h) && Canonical(j, h) && j.Stable() && j.Faithful(path)
    requires op.path == path && OpOutcome(r, j, op, r', answer)
    ensures Consistent(r', path, Acknowledge(j, h, op, answer, path))
    ensures Canonical(j, Acknowledge(j, h, op, answer, path))
  {
    match op
    case SetOp(p, value, now) => SetTolerant(r, j, p, h, value, now, r', answer.result);
    case DeleteOp(p, now) => DeleteTolerant(r, j, p, h, now, r', answer.err);
    case RollbackOp(p, version, now) => RollbackTolerant(r, j, p, h, version, now, r', answer.result);
  }

  const EMPTY: Records := Records(map[], map[])

  /**
   Any run, any operation stopping after any store step, on any paths: the records of a path stand for
   exactly the writes to it that were acknowledged, if JSON keeps the path apart from the others.
   */
  lemma {:induction false} FaultyRunConsistent(states: seq<Records>, j: JsonView, ops: seq<Op>, answers: seq<Answer>,
                                               path: string)
    requires j.Stable() && forall i :: 0 <= i < |ops| ==> Apart(j, ops[i].path, path)
    requires |states| == |ops| + 1 && |answers| == |ops| && states[0] == EMPTY
    requires forall i :: 0 <= i < |ops| ==> OpOutcome(states[i], j, ops[i], states[i + 1], answers[i])
    ensures Labelled(states[|ops|], j)
    ensures Consistent(states[|ops|], path, Acknowledged(j, ops, answers, path))
    ensures Canonical(j, Acknowledged(j, ops, answers, path))
    decreases |ops|
  {
    if ops != [] {
      var last := |ops| - 1;
      var h := Acknowledged(j, ops[..last], answers[..last], path);
      FaultyRunConsistent(states[..|ops|], j, ops[..last], answers[..last], path);
      OpKeepsLabels(states[last], j, ops[last], states[|ops|], answers[last]);
      if ops[last].path == path {
        OpTolerant(states[last], j, path, h, ops[last], states[|ops|], answers[last]);
      } else {
        OtherPathsUntouched(states[last], j, ops[last], states[|ops|], answers[last], path);
        SameConsistent(states[last], states[|ops|], path, h);
      }
    }
  }

  // ---- which paths have metadata ----

  /** A successful operation gives metadata to its path, or, if that is stored already, to the one JSON makes of it. */
  predicate Stores(j: JsonView, r: Records, op: Op, answer: Answer, path: string) {
    Succeeded(answer) && (op.path == path || (op.path in r.metas && j.text(op.path) == path))
  }

  lemma {:induction false} StepStores(r: Records, j: JsonView, op: Op, r': Records, answer: Answer, path: string)
    requires Labelled(r, j) && OpOutcome(r, j, op, r', answer)
    ensures path in r'.metas <==> path in r.metas || Stores(j, r, op, answer, path)
  {
    if path != op.path && path != j.text(op.path) {
      OtherPathsUntouched(r, j, op, r', answer, path);
    }
  }

  ghost predicate StoredBy(j: JsonView, states: seq<Records>, ops: seq<Op>, answers: seq<Answer>, path: string)
    requires |states| >= |ops| == |answers|
  {
    exists i :: 0 <= i < |ops| && Stores(j, states[i], ops[i], answers[i], path)
  }

  /** In any run on any paths, interrupted or not: a path has metadata iff some operation has given it to it. */
  lemma {:induction false} HasMetaIff(states: seq<Records>, j: JsonView, ops: seq<Op>, answers: seq<Answer>,
                                      path: string)
    requires |states| == |ops| + 1 && |answers| == |ops| && states[0] == EMPTY
    requires forall i :: 0 <= i < |ops| ==> OpOutcome(states[i], j, ops[i], states[i + 1], answers[i])
    ensures Labelled(states[|ops|], j)
    ensures path in states[|ops|].metas <==> StoredBy(j, states, ops, answers, path)
    decreases |ops|
  {
    if ops != [] {
      var last := |ops| - 1;
      HasMetaIff(states[..|ops|], j, ops[..last], answers[..last], path);
      OpKeepsLabels(states[last], j, ops[last], states[|ops|], answers[last]);
      StepStores(states[last], j, ops[last], states[|ops|], answers[last], path);
      OneMore(j, states, ops, answers, path);
    }
  }

  lemma {:induction false} OneMore(j: JsonView, states: seq<Records>, ops: seq<Op>, answers: seq<Answer>, path: string)
    requires |states| == |ops| + 1 && |answers| == |ops| > 0
    ensures var last := |ops| - 1;
            StoredBy(j, states, ops, answers, path) <==>
              || StoredBy(j, states[..|ops|], ops[..last], answers[..last], path)
              || Stores(j, states[last], ops[last], answers[last], path)
  {
    var last := |ops| - 1;
    if StoredBy(j, states[..|ops|], ops[..last], answers[..last], path) {
      var i :| 0 <= i < last && Stores(j, states[..|ops|][i], ops[..last][i], answers[..last][i], path);
      assert Stores(j, states[i], ops[i], answers[i], path);
    }
    if StoredBy(j, states, ops, answers, path) {
      var i :| 0 <= i < |ops| && Stores(j, states[i], ops[i], answers[i], path);
      if i < last { assert Stores(j, states[..|ops|][i], ops[..last][i], answers[..last][i], path); }
    }
  }

  // ---- paths that JSON does not keep ----

  /** The metadata of the path, if there is any, is still that of its first write. */
  ghost predicate StuckAtFirst(r: Records, j: JsonView, path: string) {
    path in r.metas ==> r.metas[path] == KVMeta(j.text(path), 1, None)
  }

  /** Then nothing but version 1 can be read or listed, and nothing is ever deleted. */
  lemma {:induction false} StuckReads(r: Records, j: JsonView, path: string)
    requires StuckAtFirst(r, j, path) && path in r.metas
    ensures forall version :: GetSecret(r, path, version) ==
              if version == 0 || version == 1 then ReadVersion(r, path, 1) else Err(VersionNotFound)
    ensures ListVersions(r, path) == Ok(if (path, 1) in r.versions then [r.versions[(path, 1)].(value := [])] else [])
  {
    assert ListedFrom(r, path, 2, 1) == [];
    assert OldestRetained(1) == 1;
    assert ListedFrom(r, path, 1, 1) == if (path, 1) in r.versions then [r.versions[(path, 1)].(value := [])] else [];
  }

  lemma {:induction false} OpKeepsStuck(r: Records, j: JsonView, op: Op, r': Records, answer: Answer, path: string)
    requires Labelled(r, j) && StuckAtFirst(r, j, path) && OpOutcome(r, j, op, r', answer)
    requires j.text(op.path) != path
    ensures StuckAtFirst(r', j, path)
    ensures path in r.metas ==> path in r'.metas
    ensures op.path == path && path in r.metas && answer.Wrote? && answer.result.Ok? ==>
        answer.result.value.version == 2
  {
    if op.path != path {
      OtherPathsUntouched(r, j, op, r', answer, path);
    }
  }

  /**
   A path that JSON changes is never written to a second time, whatever the run and wherever operations
   stop: nothing but version 1 is ever read or listed, no Delete shows, and every write behind the first
   one answers with version 2. The exception is a path that is itself what JSON makes of another one.
   */
  lemma {:induction false} UnfaithfulPathIsStuck(states: seq<Records>, j: JsonView, ops: seq<Op>,
                                                 answers: seq<Answer>, path: string)
    requires forall i :: 0 <= i < |ops| ==> j.text(ops[i].path) != path
    requires |states| == |ops| + 1 && |answers| == |ops| && states[0] == EMPTY
    requires forall i :: 0 <= i < |ops| ==> OpOutcome(states[i], j, ops[i], states[i + 1], answers[i])
    ensures forall i :: 0 <= i <= |ops| ==> Labelled(states[i], j) && StuckAtFirst(states[i], j, path)
    ensures forall i, version :: 0 <= i <= |ops| && path in states[i].metas ==>
              GetSecret(states[i], path, version) ==
                if version == 0 || version == 1 then ReadVersion(states[i], path, 1) else Err(VersionNotFound)
    ensures forall i :: 0 <= i <= |ops| && path in states[i].metas ==>
              ListVersions(states[i], path).Ok? && |ListVersions(states[i], path).value| <= 1
    ensures forall i :: 0 <= i < |ops| && ops[i].path == path && path in states[i].metas ==>
              answers[i].Wrote? && answers[i].result.Ok? ==> answers[i].result.value.version == 2
    decreases |ops|
  {
    if ops != [] {
      var last := |ops| - 1;
      UnfaithfulPathIsStuck(states[..|ops|], j, ops[..last], answers[..last], path);
      assert states[..|ops|][last] == states[last];
      OpKeepsLabels(states[last], j, ops[last], states[|ops|], answers[last]);
      OpKeepsStuck(states[last], j, ops[last], states[|ops|], answers[last], path);
    }
    if path in states[|ops|].metas { StuckReads(states[|ops|], j, path); }
  }
}
