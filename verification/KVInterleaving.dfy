/**
 The secret store as a transition system whose actions are single store steps. Each path has at most one
 writer at a time (KVStore holds no lock, so this is an assumption about its callers); any number of
 readers run beside it, and every operation may be given up before any of its steps.
 */
module KVInterleaving {
  import opened Wrappers
  import opened Json
  import opened KVRecords

  /** What the writer of a path does next. */
  datatype Writer =
    | Idle
    | SetReadMeta(value: JsonValue)
    | SetWriteVersion(meta: KVMeta, entry: KVEntry)
    | SetWriteMeta(meta: KVMeta, entry: KVEntry)
    | SetPrune(current: nat)
    | DeleteReadMeta
    | DeleteWriteMeta(meta: KVMeta)
    | RollbackReadMeta(asked: int)
    | RollbackReadVersion(version: nat)

  /**
   A running Get: `seen` is the version count it found in the metadata, `atRead` the number of commits when
   it looked for the version. Or a running Versions: `found` is its list so far, `next` the version it looks
   for next, `commits` the number of commits at each look so far, and `failed` the versions it could not
   look for because the store failed.
   */
  datatype Reader =
    | AtMeta(path: string, asked: int)
    | AtVersion(path: string, asked: int, seen: nat, version: nat)
    | Refused(path: string, asked: int, error: Error)
    | Answered(path: string, asked: int, seen: nat, atRead: nat, result: Result<KVEntry>)
    | AtListMeta(path: string)
    | ListRefused(path: string)
    | Listing(path: string, seen: nat, next: nat, found: seq<KVEntry>, commits: seq<nat>, failed: set<nat>)

  /** The commits so far, path by path: bookkeeping that no action depends on. */
  type Histories = map<string, seq<KVEntry>>

  function HistoryOf(hist: Histories, path: string): seq<KVEntry> {
    if path in hist then hist[path] else []
  }

  datatype System = System(
    records: Records,
    hist: Histories,
    writers: map<string, Writer>,
    readers: map<nat, Reader>)

  datatype Action =
    | StartSet(path: string, value: JsonValue)
    | StartDelete(path: string)
    | StartRollback(path: string, version: int)
    | WriterStep(path: string, now: Time)
    | WriterFails(path: string)
    | StartGet(id: nat, path: string, asked: int)
    | ReaderStep(id: nat)
    | ReaderFails(id: nat)
    | StartVersions(id: nat, path: string)
    | ReaderMisses(id: nat)
  {
    predicate Writes(p: string) {
      (StartSet? || StartDelete? || StartRollback?) && path == p
    }
  }

  function WriterOf(s: System, path: string): Writer {
    if path in s.writers then s.writers[path] else Idle
  }

  function Goto(s: System, path: string, w: Writer): System {
    s.(writers := s.writers[path := w])
  }

  /** One store step of the writer of `path`. The metadata write is the commit. */
  function StepWriter(s: System, j: JsonView, path: string, now: Time): System {
    match WriterOf(s, path)
    case Idle => s
    case SetReadMeta(value) =>
      Goto(s, path, SetWriteVersion(NextMeta(s.records, path), NextEntry(s.records, path, value, now)))
    case SetWriteVersion(meta, entry) =>
      if j.raw(entry.value).None? then Goto(s, path, Idle)
      else Goto(s.(records := PutVersion(s.records, j, entry)), path, SetWriteMeta(meta, entry))
    case SetWriteMeta(meta, entry) =>
      if StoredEntry(j, entry).None? then Goto(s, path, Idle)
      else
        var stored := StoredEntry(j, entry).value;
        var s' := s.(records := PutMeta(s.records, j, meta),
            hist := s.hist[path := HistoryOf(s.hist, path) + [stored]]);
        Goto(s', path, if meta.currentVersion > MAX_VERSIONS then SetPrune(meta.currentVersion) else Idle)
    case SetPrune(current) => Goto(s.(records := Prune(s.records, path, current)), path, Idle)
    case DeleteReadMeta =>
      if path !in s.records.metas then Goto(s, path, Idle)
      else Goto(s, path, DeleteWriteMeta(s.records.metas[path].(deletedAt := Some(now))))
    case DeleteWriteMeta(meta) => Goto(s.(records := PutMeta(s.records, j, meta)), path, Idle)
    case RollbackReadMeta(version) =>
      (match ResolveVersion(s.records, path, version)
       case Err(_) => Goto(s, path, Idle)
       case Ok(v) => Goto(s, path, RollbackReadVersion(v)))
    case RollbackReadVersion(v) =>
      (match ReadVersion(s.records, path, v)
       case Err(_) => Goto(s, path, Idle)
       case Ok(e) => Goto(s, path, SetReadMeta(e.value)))
  }

  /** One store read of a Get. */
  function StepReader(s: System, rd: Reader): Reader {
    match rd
    case AtMeta(path, asked) =>
      (match ResolveVersion(s.records, path, asked)
       case Err(e) => Refused(path, asked, e)
       case Ok(v) => AtVersion(path, asked, s.records.metas[path].currentVersion, v))
    case AtVersion(path, asked, seen, v) =>
      Answered(path, asked, seen, |HistoryOf(s.hist, path)|, ReadVersion(s.records, path, v))
    case AtListMeta(path) =>
      if path !in s.records.metas then ListRefused(path)
      else
        var current := s.records.metas[path].currentVersion;
        Listing(path, current, OldestRetained(current), [], [], {})
    case Listing(path, seen, next, found, commits, failed) =>
      if next > seen then rd
      else
        (match ReadVersion(s.records, path, next)
         case Err(_) => Looked(rd, |HistoryOf(s.hist, path)|, [], {})
         case Ok(e) => Looked(rd, |HistoryOf(s.hist, path)|, [e.(value := [])], {}))
    case _ => rd
  }

  /**
   One look of a Versions, after `atRead` commits, with the entry it gave if any, and the version it missed
   if any.
   */
  function Looked(rd: Reader, atRead: nat, more: seq<KVEntry>, missed: set<nat>): Reader
    requires rd.Listing?
  {
    rd.(next := rd.next + 1, found := rd.found + more, commits := rd.commits + [atRead], failed := rd.failed + missed)
  }

  /** A store read that fails: a Get gives up, a Versions leaves the version out and goes on. */
  function MissReader(s: System, rd: Reader): Reader {
    if rd.Listing? && rd.next <= rd.seen then Looked(rd, |HistoryOf(s.hist, rd.path)|, [], {rd.next}) else rd
  }

  function Apply(s: System, j: JsonView, a: Action): System {
    match a
    case StartSet(p, value) => if WriterOf(s, p).Idle? then Goto(s, p, SetReadMeta(value)) else s
    case StartDelete(p) => if WriterOf(s, p).Idle? then Goto(s, p, DeleteReadMeta) else s
    case StartRollback(p, version) => if WriterOf(s, p).Idle? then Goto(s, p, RollbackReadMeta(version)) else s
    case WriterStep(p, now) => StepWriter(s, j, p, now)
    case WriterFails(p) => Goto(s, p, Idle)
    case StartGet(id, p, asked) => s.(readers := s.readers[id := AtMeta(p, asked)])
    case ReaderStep(id) => if id in s.readers then s.(readers := s.readers[id := StepReader(s, s.readers[id])]) else s
    case ReaderFails(id) => s.(readers := s.readers - {id})
    case StartVersions(id, p) => s.(readers := s.readers[id := AtListMeta(p)])
    case ReaderMisses(id) =>
      if id in s.readers then s.(readers := s.readers[id := MissReader(s, s.readers[id])]) else s
  }

  function Run(s: System, j: JsonView, actions: seq<Action>): System
    decreases |actions|
  {
    if actions == [] then s else Run(Apply(s, j, actions[0]), j, actions[1..])
  }

  const START: System := System(EMPTY, map[], map[], map[])

  // ---- the invariant ----

  /** What the writer of a path has in its hands agrees with the commits to the path. */
  ghost predicate WriterInv(r: Records, j: JsonView, path: string, h: seq<KVEntry>, w: Writer) {
    match w
    case Idle => true
    case SetWriteVersion(meta, entry) =>
      && j.Faithful(path) && meta.path == path && meta.currentVersion == |h| + 1
      && entry.path == path && entry.version == |h| + 1
    case SetWriteMeta(meta, entry) =>
      && j.Faithful(path) && meta.path == path && meta.currentVersion == |h| + 1
      && entry.path == path && entry.version == |h| + 1
      && StoredEntry(j, entry).Some?
      && (path, |h| + 1) in r.versions && r.versions[(path, |h| + 1)] == StoredEntry(j, entry).value
    case SetPrune(current) => current == |h|
    case DeleteWriteMeta(meta) => j.Faithful(path) && meta.path == path && h != [] && meta.currentVersion == |h|
    case _ => j.Faithful(path)
  }

  /** The writer of another path `p` is not about to write a record of `path`. */
  ghost predicate Harmless(j: JsonView, path: string, p: string, w: Writer) {
    match w
    case Idle => true
    case SetWriteVersion(meta, entry) => meta.path != path && entry.path == p
    case SetWriteMeta(meta, entry) => meta.path != path && entry.path == p
    case SetPrune(_) => true
    case DeleteWriteMeta(meta) => meta.path != path
    case _ => j.text(p) != path
  }

  function VersionAsked(asked: int, seen: nat): int {
    if asked == 0 then seen else asked
  }

  ghost predicate Lists(found: seq<KVEntry>, v: nat) {
    exists i :: 0 <= i < |found| && found[i].version == v
  }

  /**
   What a Versions knows at each point: its list holds committed entries without their values, in ascending
   order, and a version it has looked for is missing only if its look failed or came ten commits late.
   */
  ghost predicate ListingInv(h: seq<KVEntry>, rd: Reader)
    requires rd.Listing?
  {
    var first := OldestRetained(rd.seen);
    && 1 <= first <= rd.next <= rd.seen + 1 <= |h| + 1 && rd.seen >= 1
    && |rd.commits| == rd.next - first
    && (forall i :: 0 <= i < |rd.commits| ==> rd.seen <= rd.commits[i] <= |h|)
    && (forall i :: 0 <= i < |rd.found| ==> CommittedInWindow(h, first, rd.next, rd.found[i]))
    && (forall i, k :: 0 <= i < k < |rd.found| ==> rd.found[i].version < rd.found[k].version)
    && (forall v: nat :: first <= v < rd.next ==>
          Lists(rd.found, v) || v in rd.failed || v + MAX_VERSIONS <= rd.commits[v - first])
  }

  ghost predicate CommittedInWindow(h: seq<KVEntry>, first: nat, next: nat, e: KVEntry) {
    1 <= first <= e.version < next <= |h| + 1 && e == h[e.version - 1].(value := [])
  }

  /** What a Get knows at each point, against the commits so far. */
  ghost predicate ReaderInv(h: seq<KVEntry>, rd: Reader) {
    match rd
    case AtVersion(_, asked, seen, v) => v == VersionAsked(asked, seen) && 1 <= v <= seen <= |h|
    case Answered(_, asked, seen, atRead, result) =>
      var v := VersionAsked(asked, seen);
      && 1 <= v <= seen <= atRead <= |h|
      && (match result
          case Ok(e) => e == h[v - 1]
          case Err(error) => error == NotFound && v + MAX_VERSIONS <= atRead)
    case Listing(_, _, _, _, _, _) => ListingInv(h, rd)
    case _ => true
  }

  /** The state as far as one path is concerned: its records, its writer, and the readers that ask for it. */
  ghost predicate Inv(s: System, j: JsonView, path: string) {
    && Labelled(s.records, j)
    && Consistent(s.records, path, HistoryOf(s.hist, path))
    && WriterInv(s.records, j, path, HistoryOf(s.hist, path), WriterOf(s, path))
    && (forall p :: p != path ==> Harmless(j, path, p, WriterOf(s, p)))
    && (forall id :: id in s.readers && s.readers[id].path == path ==>
         ReaderInv(HistoryOf(s.hist, path), s.readers[id]))
  }

  /** What a writer step of the path itself keeps. */
  ghost predicate KeptBy(s: System, s': System, j: JsonView, path: string) {
    && Consistent(s'.records, path, HistoryOf(s'.hist, path))
    && WriterInv(s'.records, j, path, HistoryOf(s'.hist, path), WriterOf(s', path))
    && HistoryOf(s.hist, path) <= HistoryOf(s'.hist, path)
  }

  /** The commit: the only step that extends the history. */
  lemma {:induction false} CommitStep(s: System, j: JsonView, path: string, now: Time)
    requires Inv(s, j, path) && WriterOf(s, path).SetWriteMeta?
    ensures KeptBy(s, StepWriter(s, j, path, now), j, path)
  {
    var w := WriterOf(s, path);
    CommitKeeps(s.records, j, path, HistoryOf(s.hist, path), w.meta, StoredEntry(j, w.entry).value);
  }

  lemma {:induction false} VersionStep(s: System, j: JsonView, path: string, now: Time)
    requires Inv(s, j, path) && WriterOf(s, path).SetWriteVersion?
    ensures KeptBy(s, StepWriter(s, j, path, now), j, path)
  {
    OrphanKeeps(s.records, j, path, HistoryOf(s.hist, path), WriterOf(s, path).entry);
  }

  lemma {:induction false} PruneStep(s: System, j: JsonView, path: string, now: Time)
    requires Inv(s, j, path) && WriterOf(s, path).SetPrune?
    ensures KeptBy(s, StepWriter(s, j, path, now), j, path)
  {
    PruneKeeps(s.records, path, HistoryOf(s.hist, path));
  }

  lemma {:induction false} FlagStep(s: System, j: JsonView, path: string, now: Time)
    requires Inv(s, j, path) && WriterOf(s, path).DeleteWriteMeta?
    ensures KeptBy(s, StepWriter(s, j, path, now), j, path)
  {
    FlagKeeps(s.records, j, path, HistoryOf(s.hist, path), WriterOf(s, path).meta);
  }

  lemma {:induction false} ReadStep(s: System, j: JsonView, path: string, now: Time)
    requires Inv(s, j, path)
    requires var w := WriterOf(s, path);
             w.Idle? || w.SetReadMeta? || w.DeleteReadMeta? || w.RollbackReadMeta? || w.RollbackReadVersion?
    ensures KeptBy(s, StepWriter(s, j, path, now), j, path)
  {
  }

  lemma {:induction false} OwnStep(s: System, j: JsonView, path: string, now: Time)
    requires Inv(s, j, path)
    ensures KeptBy(s, StepWriter(s, j, path, now), j, path)
  {
    match WriterOf(s, path) {
      case SetWriteVersion(_, _) => VersionStep(s, j, path, now);
      case SetWriteMeta(_, _) => CommitStep(s, j, path, now);
      case SetPrune(_) => PruneStep(s, j, path, now);
      case DeleteWriteMeta(_) => FlagStep(s, j, path, now);
      case _ => ReadStep(s, j, path, now);
    }
  }

  /** What the step of another path's writer does to the records of this one: nothing. */
  lemma {:induction false} RecordsElsewhere(s: System, j: JsonView, path: string, p: string, now: Time)
    requires p != path && Harmless(j, path, p, WriterOf(s, p))
    ensures SameOn(s.records, StepWriter(s, j, p, now).records, path)
  {
    var anyMeta, anyEntry := KVMeta(p, 0, None), KVEntry(p, 0, [], 0);
    match WriterOf(s, p) {
      case SetWriteVersion(_, entry) => StepsStayOnPath(s.records, j, anyMeta, entry, p, 0, path);
      case SetWriteMeta(meta, _) => StepsStayOnPath(s.records, j, meta, anyEntry, p, 0, path);
      case SetPrune(current) => StepsStayOnPath(s.records, j, anyMeta, anyEntry, p, current, path);
      case DeleteWriteMeta(meta) => StepsStayOnPath(s.records, j, meta, anyEntry, p, 0, path);
      case _ =>
    }
  }

  /** The metadata a writer picks up carries the name that JSON made of its path, so it stays harmless. */
  lemma {:induction false} StaysHarmless(s: System, j: JsonView, path: string, p: string, now: Time)
    requires Labelled(s.records, j) && p != path && Harmless(j, path, p, WriterOf(s, p))
    ensures Harmless(j, path, p, WriterOf(StepWriter(s, j, p, now), p))
  {
  }

  lemma {:induction false} StepKeepsLabels(s: System, j: JsonView, path: string, now: Time)
    requires Labelled(s.records, j)
    ensures Labelled(StepWriter(s, j, path, now).records, j)
    ensures StepWriter(s, j, path, now).readers == s.readers
  {
  }

  /** Only the writer of the stepping path, and its own history, move. */
  lemma {:induction false} StepMovesOneWriter(s: System, j: JsonView, path: string, now: Time, p: string)
    requires p != path
    ensures WriterOf(StepWriter(s, j, path, now), p) == WriterOf(s, p)
    ensures HistoryOf(StepWriter(s, j, path, now).hist, p) == HistoryOf(s.hist, p)
  {
  }

  lemma {:induction false} StepWriterKeeps(s: System, j: JsonView, path: string, p: string, now: Time)
    requires Inv(s, j, path)
    ensures Inv(StepWriter(s, j, p, now), j, path)
    ensures HistoryOf(s.hist, path) <= HistoryOf(StepWriter(s, j, p, now).hist, path)
  {
    var s' := StepWriter(s, j, p, now);
    StepKeepsLabels(s, j, p, now);
    forall other | other != path ensures Harmless(j, path, other, WriterOf(s', other)) {
      if other == p { StaysHarmless(s, j, path, p, now); } else { StepMovesOneWriter(s, j, p, now, other); }
    }
    if p == path {
      OwnStep(s, j, path, now);
    } else {
      StepMovesOneWriter(s, j, p, now, path);
      RecordsElsewhere(s, j, path, p, now);
      SameConsistent(s.records, s'.records, path, HistoryOf(s.hist, path));
    }
    ReadersKeep(s, s', path);
  }

  /** A longer history keeps what readers know. */
  lemma {:induction false} ReadersKeep(s: System, s': System, path: string)
    requires forall id :: id in s.readers && s.readers[id].path == path ==>
        ReaderInv(HistoryOf(s.hist, path), s.readers[id])
    requires HistoryOf(s.hist, path) <= HistoryOf(s'.hist, path) && s'.readers == s.readers
    ensures forall id :: id in s'.readers && s'.readers[id].path == path ==>
        ReaderInv(HistoryOf(s'.hist, path), s'.readers[id])
  {
    var h, h' := HistoryOf(s.hist, path), HistoryOf(s'.hist, path);
    forall id | id in s'.readers && s'.readers[id].path == path ensures ReaderInv(h', s'.readers[id]) {
      if s'.readers[id].Listing? { ListingKeeps(h, h', s'.readers[id]); }
    }
  }

  lemma {:induction false} ListingKeeps(h: seq<KVEntry>, h': seq<KVEntry>, rd: Reader)
    requires rd.Listing? && ListingInv(h, rd) && h <= h'
    ensures ListingInv(h', rd)
  {
    forall i | 0 <= i < |rd.found| ensures CommittedInWindow(h', OldestRetained(rd.seen), rd.next, rd.found[i]) {
      assert CommittedInWindow(h, OldestRetained(rd.seen), rd.next, rd.found[i]);
    }
  }

  /** What is missing after a look was missing before, or is the version of this look. */
  lemma {:induction false} LookExplains(h: seq<KVEntry>, rd: Reader, more: seq<KVEntry>, missed: set<nat>, v: nat)
    requires rd.Listing? && ListingInv(h, rd) && OldestRetained(rd.seen) <= v <= rd.next
    requires more == [] || (|more| == 1 && more[0].version == rd.next)
    requires more == [] ==> rd.next in missed || rd.next + MAX_VERSIONS <= |h|
    ensures var rd' := Looked(rd, |h|, more, missed);
            Lists(rd'.found, v) || v in rd'.failed || v + MAX_VERSIONS <= rd'.commits[v - OldestRetained(rd.seen)]
  {
    var first, rd' := OldestRetained(rd.seen), Looked(rd, |h|, more, missed);
    if v < rd.next {
      if Lists(rd.found, v) {
        var i :| 0 <= i < |rd.found| && rd.found[i].version == v;
        assert rd'.found[i].version == v;
      } else {
        assert rd'.commits[v - first] == rd.commits[v - first];
      }
    } else if more != [] {
      assert rd'.found[|rd.found|].version == v;
    }
  }

  /** A look that gives the committed entry, or nothing for one of the two reasons. */
  lemma {:induction false} LookKeeps(h: seq<KVEntry>, rd: Reader, more: seq<KVEntry>, missed: set<nat>)
    requires rd.Listing? && ListingInv(h, rd) && rd.next <= rd.seen
    requires more == [] || more == [h[rd.next - 1].(value := [])]
    requires forall i :: 0 <= i < |h| ==> h[i].version == i + 1
    requires more == [] ==> rd.next in missed || rd.next + MAX_VERSIONS <= |h|
    ensures ListingInv(h, Looked(rd, |h|, more, missed))
  {
    var first, rd' := OldestRetained(rd.seen), Looked(rd, |h|, more, missed);
    forall i | 0 <= i < |rd.found| ensures CommittedInWindow(h, first, rd'.next, rd.found[i]) {
      assert CommittedInWindow(h, first, rd.next, rd.found[i]);
    }
    forall v: nat | first <= v < rd'.next
      ensures Lists(rd'.found, v) || v in rd'.failed || v + MAX_VERSIONS <= rd'.commits[v - first]
    {
      LookExplains(h, rd, more, missed, v);
    }
    FoundAscends(h, rd, more);
  }

  lemma {:induction false} FoundAscends(h: seq<KVEntry>, rd: Reader, more: seq<KVEntry>)
    requires rd.Listing? && ListingInv(h, rd)
    requires more == [] || (|more| == 1 && more[0].version == rd.next)
    ensures var found := rd.found + more;
            forall i, k :: 0 <= i < k < |found| ==> found[i].version < found[k].version
  {
    assert forall i :: 0 <= i < |rd.found| ==> CommittedInWindow(h, OldestRetained(rd.seen), rd.next, rd.found[i]);
  }

  lemma {:induction false} MissKeeps(s: System, j: JsonView, rd: Reader)
    requires Inv(s, j, rd.path) && ReaderInv(HistoryOf(s.hist, rd.path), rd)
    ensures MissReader(s, rd).path == rd.path
    ensures ReaderInv(HistoryOf(s.hist, rd.path), MissReader(s, rd))
  {
    if rd.Listing? && rd.next <= rd.seen {
      LookKeeps(HistoryOf(s.hist, rd.path), rd, [], {rd.next});
    }
  }

  lemma {:induction false} ListingStepKeeps(s: System, j: JsonView, rd: Reader)
    requires rd.Listing? && Inv(s, j, rd.path) && ListingInv(HistoryOf(s.hist, rd.path), rd)
    ensures StepReader(s, rd).Listing? && ListingInv(HistoryOf(s.hist, rd.path), StepReader(s, rd))
  {
    var h := HistoryOf(s.hist, rd.path);
    if rd.next <= rd.seen {
      var got := ReadVersion(s.records, rd.path, rd.next);
      if got.Err? { assert !Retained(|h|, rd.next); }
      LookKeeps(h, rd, if got.Ok? then [got.value.(value := [])] else [], {});
    }
  }

  lemma {:induction false} StepReaderKeeps(s: System, j: JsonView, rd: Reader)
    requires Inv(s, j, rd.path) && ReaderInv(HistoryOf(s.hist, rd.path), rd)
    ensures StepReader(s, rd).path == rd.path
    ensures ReaderInv(HistoryOf(s.hist, rd.path), StepReader(s, rd))
    ensures StepReader(s, rd).AtVersion? ==> StepReader(s, rd).seen == |HistoryOf(s.hist, rd.path)|
  {
    var h := HistoryOf(s.hist, rd.path);
    if rd.AtVersion? && (rd.path, rd.version) !in s.records.versions {
      assert !Retained(|h|, rd.version);
    }
    if rd.Listing? { ListingStepKeeps(s, j, rd); }
  }

  lemma {:induction false} ReaderStaysOnPath(s: System, rd: Reader)
    ensures StepReader(s, rd).path == MissReader(s, rd).path == rd.path
  {
  }

  /** Writes are started on any paths that JSON keeps apart from this one. */
  ghost predicate Allowed(j: JsonView, path: string, a: Action) {
    forall p :: a.Writes(p) ==> Apart(j, p, path)
  }

  lemma {:induction false} ApplyKeeps(s: System, j: JsonView, path: string, a: Action)
    requires Inv(s, j, path) && Allowed(j, path, a)
    ensures Inv(Apply(s, j, a), j, path)
    ensures HistoryOf(s.hist, path) <= HistoryOf(Apply(s, j, a).hist, path)
  {
    match a {
      case WriterStep(p, now) => StepWriterKeeps(s, j, path, p, now);
      case ReaderStep(id) =>
        if id in s.readers {
          ReaderStaysOnPath(s, s.readers[id]);
          if s.readers[id].path == path { StepReaderKeeps(s, j, s.readers[id]); }
        }
        SameWriters(s, Apply(s, j, a), j, path);
      case StartGet(_, _, _) => SameWriters(s, Apply(s, j, a), j, path);
      case ReaderFails(_) => SameWriters(s, Apply(s, j, a), j, path);
      case StartVersions(_, _) => SameWriters(s, Apply(s, j, a), j, path);
      case ReaderMisses(id) =>
        if id in s.readers {
          ReaderStaysOnPath(s, s.readers[id]);
          if s.readers[id].path == path { MissKeeps(s, j, s.readers[id]); }
        }
        SameWriters(s, Apply(s, j, a), j, path);
      case StartSet(p, value) => assert a.Writes(p); GotoKeeps(s, j, path, p, SetReadMeta(value));
      case StartDelete(p) => assert a.Writes(p); GotoKeeps(s, j, path, p, DeleteReadMeta);
      case StartRollback(p, version) => assert a.Writes(p); GotoKeeps(s, j, path, p, RollbackReadMeta(version));
      case WriterFails(p) => GotoKeeps(s, j, path, p, Idle);
    }
  }

  /** Starting an operation or giving one up touches nothing but the writer of its path. */
  lemma {:induction false} GotoKeeps(s: System, j: JsonView, path: string, p: string, w: Writer)
    requires Inv(s, j, path)
    requires w.Idle? || w.SetReadMeta? || w.DeleteReadMeta? || w.RollbackReadMeta?
    requires w.Idle? || Apart(j, p, path)
    ensures Inv(Goto(s, p, w), j, path)
  {
    var s' := Goto(s, p, w);
    assert forall other :: WriterOf(s', other) == if other == p then w else WriterOf(s, other);
  }

  lemma {:induction false} SameWriters(s: System, s': System, j: JsonView, path: string)
    requires Inv(s, j, path)
    requires s'.writers == s.writers && s'.records == s.records && s'.hist == s.hist
    ensures forall p :: p != path ==> Harmless(j, path, p, WriterOf(s', p))
    ensures WriterOf(s', path) == WriterOf(s, path)
  {
    assert forall p :: WriterOf(s', p) == WriterOf(s, p);
  }

  /** Every reachable state satisfies the invariant, however writers, readers and failures interleave. */
  lemma {:induction false} RunKeeps(s: System, j: JsonView, path: string, actions: seq<Action>)
    requires Inv(s, j, path) && forall i :: 0 <= i < |actions| ==> Allowed(j, path, actions[i])
    ensures Inv(Run(s, j, actions), j, path)
    ensures HistoryOf(s.hist, path) <= HistoryOf(Run(s, j, actions).hist, path)
    decreases |actions|
  {
    if actions != [] {
      ApplyKeeps(s, j, path, actions[0]);
      RunKeeps(Apply(s, j, actions[0]), j, path, actions[1..]);
    }
  }

  /** `s` is what some run has led to, in which JSON keeps the paths that are written apart from `path`. */
  ghost predicate Reachable(s: System, j: JsonView, path: string, actions: seq<Action>) {
    s == Run(START, j, actions) && forall i :: 0 <= i < |actions| ==> Allowed(j, path, actions[i])
  }

  lemma {:induction false} ReachableInv(s: System, j: JsonView, path: string, actions: seq<Action>)
    requires Reachable(s, j, path, actions)
    ensures Inv(s, j, path)
  {
    RunKeeps(START, j, path, actions);
  }

  /**
   A path whose metadata says version n holds the last ten committed values; anything else there is one
   orphan behind them or a leftover that still holds its committed value.
   */
  lemma {:induction false} StoreHoldsCommitted(s: System, j: JsonView, actions: seq<Action>, path: string)
    requires Reachable(s, j, path, actions) && path in s.records.metas
    ensures var h := HistoryOf(s.hist, path);
            var n := s.records.metas[path].currentVersion;
            && n == |h| >= 1
            && (forall k: nat :: Retained(n, k) ==>
                 (path, k) in s.records.versions && s.records.versions[(path, k)] == h[k - 1])
            && (forall k: nat :: (path, k) in s.records.versions && !Retained(n, k) ==>
                  k == n + 1 || (1 <= k && k + MAX_VERSIONS <= n && s.records.versions[(path, k)] == h[k - 1]))
  {
    ReachableInv(s, j, path, actions);
  }

  /** In every reachable state Versions lists exactly the last min(n, 10) commits of a path. */
  lemma {:induction false} VersionsAlways(s: System, j: JsonView, actions: seq<Action>, path: string)
    requires Reachable(s, j, path, actions) && path in s.records.metas
    ensures ListVersions(s.records, path).Ok?
    ensures var h, listed := HistoryOf(s.hist, path), ListVersions(s.records, path).value;
            && |listed| == (if |h| < MAX_VERSIONS then |h| else MAX_VERSIONS)
            && forall i :: 0 <= i < |listed| ==>
                 listed[i].version == |h| - |listed| + 1 + i && listed[i] == h[|h| - |listed| + i].(value := [])
  {
    ReachableInv(s, j, path, actions);
    VersionsListed(s.records, path, HistoryOf(s.hist, path));
  }

  /**
   A finished Get has returned the committed value of the version it names, or has lost a race against ten
   commits.
   */
  lemma {:induction false} ReaderAnswers(s: System, j: JsonView, actions: seq<Action>, id: nat)
    requires id in s.readers && s.readers[id].Answered? && Reachable(s, j, s.readers[id].path, actions)
    ensures var Answered(path, asked, seen, atRead, result) := s.readers[id];
            var v := VersionAsked(asked, seen);
            var h := HistoryOf(s.hist, path);
            && 1 <= v <= seen <= atRead <= |h|
            && (result.Ok? ==> result.value == h[v - 1])
            && (result.Err? ==> result.error == NotFound && v + MAX_VERSIONS <= atRead)
            && (result.Err? && asked == 0 ==> atRead >= seen + MAX_VERSIONS)
  {
    ReachableInv(s, j, s.readers[id].path, actions);
  }

  /** `seen` really is the number of commits at the first read, and `atRead` the number at the second. */
  lemma {:induction false} ReaderCounts(s: System, j: JsonView, actions: seq<Action>, id: nat)
    requires id in s.readers && Reachable(s, j, s.readers[id].path, actions)
    ensures var rd := s.readers[id];
            var rd' := Apply(s, j, ReaderStep(id)).readers[id];
            && (rd.AtMeta? && rd'.AtVersion? ==> rd'.seen == |HistoryOf(s.hist, rd.path)|)
            && (rd.AtVersion? ==> rd'.Answered? && rd'.seen == rd.seen && rd'.atRead == |HistoryOf(s.hist, rd.path)|)
  {
    ReachableInv(s, j, s.readers[id].path, actions);
    StepReaderKeeps(s, j, s.readers[id]);
  }

  /**
   A finished Versions beside writers: committed entries of the window that the metadata named, without
   their values, in ascending order. A version of the window is missing only if its read failed, or if at
   least ten commits behind it had been made by then.
   */
  lemma {:induction false} VersionsAnswers(s: System, j: JsonView, actions: seq<Action>, id: nat, v: nat)
    requires id in s.readers && s.readers[id].Listing? && s.readers[id].next > s.readers[id].seen
    requires Reachable(s, j, s.readers[id].path, actions)
    ensures var Listing(path, seen, _, found, commits, failed) := s.readers[id];
            var h, first := HistoryOf(s.hist, path), OldestRetained(seen);
            && 1 <= seen <= |h| && |commits| == seen + 1 - first
            && (forall i :: 0 <= i < |found| ==>
                  first <= found[i].version <= seen && found[i] == h[found[i].version - 1].(value := []))
            && (forall i, k :: 0 <= i < k < |found| ==> found[i].version < found[k].version)
            && (first <= v <= seen && v !in failed ==> Lists(found, v) || v + MAX_VERSIONS <= commits[v - first])
            && (failed == {} && (forall i :: 0 <= i < |commits| ==> commits[i] == seen) && first <= v <= seen ==>
                 Lists(found, v))
  {
    ReachableInv(s, j, s.readers[id].path, actions);
    var rd := s.readers[id];
    var h := HistoryOf(s.hist, rd.path);
    assert ListingInv(h, rd);
    forall i | 0 <= i < |rd.found|
      ensures OldestRetained(rd.seen) <= rd.found[i].version <= rd.seen &&
          rd.found[i] == h[rd.found[i].version - 1].(value := [])
    {
      assert CommittedInWindow(h, OldestRetained(rd.seen), rd.next, rd.found[i]);
    }
  }

  /** There too `seen` is the number of commits at the first read, and each look notes the number at that look. */
  lemma {:induction false} VersionsCounts(s: System, j: JsonView, actions: seq<Action>, id: nat)
    requires id in s.readers && Reachable(s, j, s.readers[id].path, actions)
    ensures var rd := s.readers[id];
            var rd' := Apply(s, j, ReaderStep(id)).readers[id];
            && (rd.AtListMeta? && rd'.Listing? ==> rd'.seen == |HistoryOf(s.hist, rd.path)| && rd'.failed == {})
            && (rd.Listing? && rd.next <= rd.seen ==>
                  rd'.Listing? && rd'.commits == rd.commits + [|HistoryOf(s.hist, rd.path)|] && rd'.failed == rd.failed)
  {
    ReachableInv(s, j, s.readers[id].path, actions);
  }

  /**
   From any reachable state to any later one: the path stays stored, its version count never goes back, and
   a committed version that is still stored holds the value it had. Only versions that have left the window
   may be gone.
   */
  lemma {:induction false} CommittedRecordsStay(s: System, s': System, j: JsonView, before: seq<Action>,
                                                after: seq<Action>, path: string, k: nat)
    requires Reachable(s, j, path, before) && path in s.records.metas
    requires s' == Run(s, j, after) && forall i :: 0 <= i < |after| ==> Allowed(j, path, after[i])
    requires k <= s.records.metas[path].currentVersion && (path, k) in s.records.versions
    ensures path in s'.records.metas && s.records.metas[path].currentVersion <= s'.records.metas[path].currentVersion
    ensures (path, k) in s'.records.versions ==> s'.records.versions[(path, k)] == s.records.versions[(path, k)]
    ensures (path, k) !in s'.records.versions ==> k + MAX_VERSIONS <= s'.records.metas[path].currentVersion
  {
    ReachableInv(s, j, path, before);
    RunKeeps(s, j, path, after);
    assert !Retained(s'.records.metas[path].currentVersion, k) || (path, k) in s'.records.versions;
  }

  // ---- a writer that is left alone performs the operation ----

  /** A Set in four steps: a read, the version, the metadata, and the pruning. */
  lemma {:induction false} SetIsItsSteps(s: System, j: JsonView, path: string, value: JsonValue, now: Time)
    requires WriterOf(s, path).Idle?
    ensures var s1 := StepWriter(Apply(s, j, StartSet(path, value)), j, path, now);
            var s2 := StepWriter(s1, j, path, now);
            var s3 := StepWriter(s2, j, path, now);
            var s4 := StepWriter(s3, j, path, now);
            && s1.records == s.records
            && s2.records == PutVersion(s.records, j, NextEntry(s.records, path, value, now))
            && (j.raw(value).Some? ==> s3.records == Committed(s.records, j, path, value, now))
            && s4.records == SetSecret(s.records, j, path, value, now).0 && WriterOf(s4, path).Idle?
  {
  }

  /** A Delete in two steps: a read and the metadata. */
  lemma {:induction false} DeleteIsItsSteps(s: System, j: JsonView, path: string, now: Time)
    requires WriterOf(s, path).Idle?
    ensures var s1 := StepWriter(Apply(s, j, StartDelete(path)), j, path, now);
            var s2 := StepWriter(s1, j, path, now);
            && s1.records == s.records
            && s2.records == DeleteSecret(s.records, j, path, now).0 && WriterOf(s2, path).Idle?
  {
  }

  /** The two reads of a Rollback hand the old value to a Set, or give up when Get would. */
  lemma {:induction false} RollbackIsItsSteps(s: System, j: JsonView, path: string, version: int, now: Time)
    requires WriterOf(s, path).Idle?
    ensures var s1 := StepWriter(Apply(s, j, StartRollback(path, version)), j, path, now);
            var s2 := StepWriter(s1, j, path, now);
            && s2.records == s.records && s2.hist == s.hist
            && WriterOf(s2, path) == match GetSecret(s.records, path, version)
                                     case Ok(e) => SetReadMeta(e.value)
                                     case Err(_) => Idle
  {
  }

  /**
   A Get in two reads, which answers like the operation if nobody disturbs it; the first one only chooses the
   version.
   */
  lemma {:induction false} GetIsItsReads(s: System, j: JsonView, path: string, asked: int)
    ensures match ResolveVersion(s.records, path, asked)
            case Err(error) => StepReader(s, AtMeta(path, asked)) == Refused(path, asked, error)
            case Ok(v) =>
              StepReader(s, AtMeta(path, asked)) == AtVersion(path, asked, s.records.metas[path].currentVersion, v)
    ensures match StepReader(s, StepReader(s, AtMeta(path, asked)))
            case Refused(_, _, error) => GetSecret(s.records, path, asked) == Err(error)
            case Answered(_, _, _, _, result) => GetSecret(s.records, path, asked) == result
            case _ => false
  {
  }

  /** `n` reads in a row. */
  function Reads(s: System, rd: Reader, n: nat): Reader
    decreases n
  {
    if n == 0 then rd else Reads(s, StepReader(s, rd), n - 1)
  }

  lemma {:induction false} ListingIsItsReads(s: System, rd: Reader)
    requires rd.Listing? && rd.next <= rd.seen + 1
    ensures var rd' := Reads(s, rd, rd.seen + 1 - rd.next);
            && rd'.Listing? && rd'.next == rd.seen + 1
            && rd'.found == rd.found + ListedFrom(s.records, rd.path, rd.next, rd.seen)
    decreases rd.seen + 1 - rd.next
  {
    if rd.next <= rd.seen {
      ListingIsItsReads(s, StepReader(s, rd));
    }
  }

  /** A Versions that nobody disturbs answers like the operation. */
  lemma {:induction false} VersionsIsItsReads(s: System, path: string)
    ensures var rd := StepReader(s, AtListMeta(path));
            match ListVersions(s.records, path)
            case Err(_) => rd == ListRefused(path)
            case Ok(listed) =>
              rd.Listing? && rd.next <= rd.seen + 1 && Reads(s, rd, rd.seen + 1 - rd.next).Listing?
              && Reads(s, rd, rd.seen + 1 - rd.next).found == listed
  {
    if path in s.records.metas {
      var current := s.records.metas[path].currentVersion;
      var rd := Listing(path, current, OldestRetained(current), [], [], {});
      assert StepReader(s, AtListMeta(path)) == rd && rd.next <= rd.seen + 1;
      ListingIsItsReads(s, rd);
      assert [] + ListedFrom(s.records, path, rd.next, current) == ListedFrom(s.records, path, rd.next, current);
    }
  }
}
