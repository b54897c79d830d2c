/**
 What a directory listing shows: the first segments of the paths below the directory, and the records of
 the path that is the directory itself. First for arbitrary records, then in terms of the secrets in a vault.
 */
module KVListing {
  import opened Wrappers
  import opened Json
  import opened Text
  import opened Order
  import opened Database
  import opened KVLayout
  import opened KVRecords
  import opened KVRuns
  import KVStore

  /** Everything before the first slash. */
  function FirstSegment(s: string): string {
    s[..IndexOf(s, '/')]
  }

  predicate IsDirectory(prefix: string) {
    prefix == "" || HasSuffix(prefix, "/")
  }

  /** The records hold the record of this slot. */
  predicate Holds(r: Records, slot: Slot) {
    match slot
    case MetaSlot(path) => path in r.metas
    case VersionSlot(path, version) => (path, version) in r.versions
  }

  /** Some record lies below the directory, and `child` is the next segment on the way to its path. */
  ghost predicate LeadsToRecord(r: Records, prefix: string, child: string) {
    exists slot :: Holds(r, slot) && prefix <= slot.path &&
      child == KV_ROOT + prefix + FirstSegment(slot.path[|prefix|..]) + "/"
  }

  /** The directory without its slash is itself a path, and `child` is `__meta` or `v<k>` of one of its records. */
  ghost predicate IsOwnRecord(r: Records, prefix: string, child: string) {
    exists slot :: Holds(r, slot) && prefix == slot.path + "/" && child == KV_ROOT + prefix + Tag(slot)
  }

  /** The vault has the record of this slot: the metadata of a secret, or one of its retained versions. */
  ghost predicate HasSlot(vault: Vault, slot: Slot) {
    slot.path in vault && (slot.VersionSlot? ==> Retained(|vault[slot.path].history|, slot.version))
  }

  /** Some secret lies below the directory, and `child` is the next segment on the way to it. */
  ghost predicate LeadsToSecret(vault: Vault, prefix: string, child: string) {
    exists p :: p in vault && prefix <= p && child == KV_ROOT + prefix + FirstSegment(p[|prefix|..]) + "/"
  }

  /**
   The directory without its slash is itself a secret, and `child` names its metadata or one of its retained
   versions.
   */
  ghost predicate IsOwnSlot(vault: Vault, prefix: string, child: string) {
    exists slot :: HasSlot(vault, slot) && prefix == slot.path + "/" && child == KV_ROOT + prefix + Tag(slot)
  }

  // ---- cutting keys ----

  lemma {:induction false} FirstLevelOfPath(r: string, tail: string)
    ensures FirstLevel(r + "/" + tail) == FirstSegment(r) + "/"
  {
    var s := r + "/" + tail;
    if r == [] {
      assert s[0] == '/';
    } else if r[0] == '/' {
      assert s[0] == '/' && FirstSegment(r) == [];
    } else {
      FirstLevelOfPath(r[1..], tail);
      assert s[1..] == r[1..] + "/" + tail;
      assert FirstSegment(r) == [r[0]] + FirstSegment(r[1..]);
    }
  }

  lemma {:induction false} FirstLevelOfTag(tag: string)
    requires forall i :: 0 <= i < |tag| ==> tag[i] != '/'
    ensures FirstLevel(tag) == tag
  {
    if tag != [] {
      FirstLevelOfTag(tag[1..]);
      assert tag == [tag[0]] + tag[1..];
    }
  }

  /** A directory that is a prefix of path/tag is a prefix of the path, or the path and its slash. */
  lemma {:induction false} DirectoryCut(prefix: string, path: string, tag: string)
    requires IsDirectory(prefix) && prefix <= path + "/" + tag
    requires forall i :: 0 <= i < |tag| ==> tag[i] != '/'
    ensures prefix <= path || prefix == path + "/"
    ensures prefix <= path ==> (path + "/" + tag)[|prefix|..] == path[|prefix|..] + "/" + tag
    ensures prefix == path + "/" ==> (path + "/" + tag)[|prefix|..] == tag
  {
    var s := path + "/" + tag;
    if |prefix| > |path| {
      var i := |prefix| - 1;
      assert prefix[i] == s[i];
      assert forall k :: |path| < k < |s| ==> s[k] == tag[k - |path| - 1];
      assert prefix == s[..|path| + 1] == path + "/";
    } else {
      assert prefix == s[..|prefix|] == path[..|prefix|];
    }
  }

  /** The child under which the record of a slot shows. */
  lemma {:induction false} ChildOfSlot(prefix: string, slot: Slot)
    requires IsDirectory(prefix)
    ensures KV_ROOT + prefix <= KeyOf(slot) <==> prefix <= slot.path || prefix == slot.path + "/"
    ensures prefix <= slot.path ==>
              Child(KV_ROOT + prefix, KeyOf(slot)) == KV_ROOT + prefix + FirstSegment(slot.path[|prefix|..]) + "/"
    ensures prefix == slot.path + "/" ==> Child(KV_ROOT + prefix, KeyOf(slot)) == KV_ROOT + prefix + Tag(slot)
  {
    KeyShape(slot);
    var rest := slot.path + "/" + Tag(slot);
    var key, dir := KeyOf(slot), KV_ROOT + prefix;
    assert key == KV_ROOT + rest;
    if dir <= key {
      assert prefix == dir[|KV_ROOT|..] == key[|KV_ROOT|..][..|prefix|];
      DirectoryCut(prefix, slot.path, Tag(slot));
    }
    if prefix <= slot.path || prefix == slot.path + "/" {
      assert prefix <= rest;
      assert dir <= key && key[|dir|..] == rest[|prefix|..];
      DirectoryCut(prefix, slot.path, Tag(slot));
      if prefix <= slot.path {
        FirstLevelOfPath(slot.path[|prefix|..], Tag(slot));
        assert dir + (FirstSegment(slot.path[|prefix|..]) + "/") == dir + FirstSegment(slot.path[|prefix|..]) + "/";
      } else {
        FirstLevelOfTag(Tag(slot));
      }
    }
  }

  // ---- the listing of arbitrary records ----

  lemma {:induction false} StoredSlots(env: KVStore.Env, store: map<string, bytes>, r: Records, slot: Slot)
    requires KVStore.Represents(env, store, r)
    ensures KeyOf(slot) in store <==> Holds(r, slot)
  {
    assert KVStore.SlotHolds(env, store, r, slot);
  }

  lemma {:induction false} ShownChild(env: KVStore.Env, store: map<string, bytes>, r: Records, prefix: string,
                                      key: string)
    requires KVStore.Represents(env, store, r) && IsDirectory(prefix)
    requires key in store && KV_ROOT + prefix <= key
    ensures var child := Child(KV_ROOT + prefix, key);
            LeadsToRecord(r, prefix, child) || IsOwnRecord(r, prefix, child)
  {
    assert KV_ROOT <= key by { assert KV_ROOT <= KV_ROOT + prefix; }
    var slot := ParseKey(key).value;
    KeyOfParse(key);
    StoredSlots(env, store, r, slot);
    ChildOfSlot(prefix, slot);
  }

  lemma {:induction false} ShownBySlot(env: KVStore.Env, store: map<string, bytes>, r: Records, prefix: string,
                                       slot: Slot)
    requires KVStore.Represents(env, store, r) && IsDirectory(prefix)
    requires Holds(r, slot) && (prefix <= slot.path || prefix == slot.path + "/")
    ensures KV_ROOT + prefix <= KeyOf(slot)
    ensures Child(KV_ROOT + prefix, KeyOf(slot)) in ChildrenOf(store.Keys, KV_ROOT + prefix)
  {
    ChildOfSlot(prefix, slot);
    StoredSlots(env, store, r, slot);
  }

  /**
   In every state, also after interrupted writes: the ways to the records below the directory, and its own
   records.
   */
  lemma {:induction false} ListingShowsRecords(env: KVStore.Env, store: map<string, bytes>, r: Records,
                                               prefix: string, child: string)
    requires KVStore.Represents(env, store, r) && IsDirectory(prefix)
    ensures child in ChildrenOf(store.Keys, Directory(KV_ROOT + prefix))
       <==> LeadsToRecord(r, prefix, child) || IsOwnRecord(r, prefix, child)
  {
    var dir := KV_ROOT + prefix;
    assert Directory(dir) == dir;
    if child in ChildrenOf(store.Keys, dir) {
      var key :| key in store.Keys && dir <= key && Child(dir, key) == child;
      ShownChild(env, store, r, prefix, key);
    }
    if LeadsToRecord(r, prefix, child) {
      var slot :| Holds(r, slot) && prefix <= slot.path && child == dir + FirstSegment(slot.path[|prefix|..]) + "/";
      ShownBySlot(env, store, r, prefix, slot);
      ChildOfSlot(prefix, slot);
    }
    if IsOwnRecord(r, prefix, child) {
      var slot :| Holds(r, slot) && prefix == slot.path + "/" && child == dir + Tag(slot);
      ShownBySlot(env, store, r, prefix, slot);
      ChildOfSlot(prefix, slot);
    }
  }

  /** A directory named without its slash is listed like the one with the slash, whatever the records. */
  lemma {:induction false} ListingCompletesPrefix(env: KVStore.Env, store: map<string, bytes>, r: Records,
                                                  prefix: string, child: string)
    requires KVStore.Represents(env, store, r) && prefix != "" && prefix[|prefix| - 1] != '/'
    ensures child in ChildrenOf(store.Keys, Directory(KV_ROOT + prefix))
       <==> LeadsToRecord(r, prefix + "/", child) || IsOwnRecord(r, prefix + "/", child)
  {
    DirectoryMeans(KV_ROOT + prefix);
    DirectoryMeans(KV_ROOT + (prefix + "/"));
    assert KV_ROOT + prefix + "/" == KV_ROOT + (prefix + "/");
    SuffixMeans(prefix + "/", "/");
    ListingShowsRecords(env, store, r, prefix + "/", child);
  }

  // ---- the listing of a vault ----

  lemma {:induction false} ImageSlots(r: Records, vault: Vault, slot: Slot)
    requires IsWholeImage(r, vault)
    ensures Holds(r, slot) <==> HasSlot(vault, slot)
  {
    assert IsImage(r, vault, slot.path);
  }

  /** The listing of a directory: exactly the ways to its secrets, and its own records. */
  lemma {:induction false} ListingAgrees(env: KVStore.Env, store: map<string, bytes>, r: Records, vault: Vault,
                                         prefix: string, child: string)
    requires KVStore.Represents(env, store, r) && IsWholeImage(r, vault) && IsDirectory(prefix)
    ensures child in ChildrenOf(store.Keys, Directory(KV_ROOT + prefix))
       <==> LeadsToSecret(vault, prefix, child) || IsOwnSlot(vault, prefix, child)
  {
    ListingShowsRecords(env, store, r, prefix, child);
    forall slot ensures Holds(r, slot) <==> HasSlot(vault, slot) {
      ImageSlots(r, vault, slot);
    }
    if LeadsToSecret(vault, prefix, child) {
      var p :| p in vault && prefix <= p && child == KV_ROOT + prefix + FirstSegment(p[|prefix|..]) + "/";
      assert Holds(r, MetaSlot(p));
    }
  }

  /** Some path that was ever written lies below the directory, and `child` is the next segment on the way to it. */
  ghost predicate LeadsToWritten(ops: seq<Op>, answers: seq<Answer>, prefix: string, child: string)
    requires |ops| == |answers|
  {
    exists p :: VersionsWritten(ops, answers, p) != [] && prefix <= p &&
      child == KV_ROOT + prefix + FirstSegment(p[|prefix|..]) + "/"
  }

  /** After any failure-free run: the directories listed are exactly the ways to the paths ever written. */
  lemma {:induction false} ListingAfterRun(env: KVStore.Env, store: map<string, bytes>, ops: seq<Op>, prefix: string,
                                           child: string)
    requires env.json.Stable() && forall i :: 0 <= i < |ops| ==> env.json.Faithful(ops[i].path)
    requires KVStore.Represents(env, store, RecordRun(EMPTY, env.json, ops).0) && IsDirectory(prefix)
    ensures child in ChildrenOf(store.Keys, Directory(KV_ROOT + prefix)) <==>
              (LeadsToWritten(ops, RecordRun(EMPTY, env.json, ops).1, prefix, child)
               || IsOwnSlot(VaultRun(map[], env.json, ops).0, prefix, child))
  {
    var vault := VaultRun(map[], env.json, ops).0;
    WholeRefinement(env.json, ops);
    ListingAgrees(env, store, RecordRun(EMPTY, env.json, ops).0, vault, prefix, child);
    forall p ensures p in vault <==> VersionsWritten(ops, RecordRun(EMPTY, env.json, ops).1, p) != [] {
      VersionsCountUp(env.json, ops, p);
      assert IsImage(RecordRun(EMPTY, env.json, ops).0, vault, p);
    }
  }

  /**
   Some path that the run has given metadata lies below the directory, and `child` is the next segment on the
   way to it.
   */
  ghost predicate LeadsToStored(j: JsonView, ops: seq<Op>, prefix: string, child: string) {
    exists p :: StoredByRun(j, ops, p) && prefix <= p && child == KV_ROOT + prefix + FirstSegment(p[|prefix|..]) + "/"
  }

  /**
   After any failure-free run on arbitrary paths: the directories listed are exactly the ways to the paths
   that some operation was on, or that JSON made of a stored path some operation was on.
   */
  lemma {:induction false} ListingAfterAnyRun(env: KVStore.Env, store: map<string, bytes>, ops: seq<Op>, prefix: string,
                                              child: string)
    requires KVStore.Represents(env, store, RecordRun(EMPTY, env.json, ops).0) && IsDirectory(prefix)
    ensures child in ChildrenOf(store.Keys, Directory(KV_ROOT + prefix)) <==>
              || LeadsToStored(env.json, ops, prefix, child)
              || IsOwnRecord(RecordRun(EMPTY, env.json, ops).0, prefix, child)
  {
    var r := RecordRun(EMPTY, env.json, ops).0;
    ListingShowsRecords(env, store, r, prefix, child);
    if LeadsToRecord(r, prefix, child) {
      var slot :|
        Holds(r, slot) && prefix <= slot.path && child == KV_ROOT + prefix + FirstSegment(slot.path[|prefix|..]) + "/";
      StoredAfterRun(env.json, ops, slot.path);
    }
    if LeadsToStored(env.json, ops, prefix, child) {
      var p :| StoredByRun(env.json, ops, p) && prefix <= p &&
          child == KV_ROOT + prefix + FirstSegment(p[|prefix|..]) + "/";
      StoredAfterRun(env.json, ops, p);
      assert Holds(r, MetaSlot(p));
    }
  }

  /**
   Not every directory listed leads to a path that was written: after two Sets of a path that JSON changes,
   the way to the path that JSON makes of it is listed too.
   */
  lemma {:induction false} ListingShowsUnwritten(env: KVStore.Env, store: map<string, bytes>, path: string,
                                                 a: JsonValue, b: JsonValue, now: Time)
    requires env.json.raw(a).Some? && env.json.raw(b).Some? && !env.json.Faithful(path)
    requires KVStore.Represents(env, store, RecordRun(EMPTY, env.json, [SetOp(path, a, now), SetOp(path, b, now)]).0)
    ensures var ops := [SetOp(path, a, now), SetOp(path, b, now)];
            var answers := RecordRun(EMPTY, env.json, ops).1;
            var q := env.json.text(path);
            var child := KV_ROOT + FirstSegment(q) + "/";
            && child in ChildrenOf(store.Keys, Directory(KV_ROOT)) && VersionsWritten(ops, answers, q) == []
            && (FirstSegment(q) != FirstSegment(path) ==> !LeadsToWritten(ops, answers, "", child))
  {
    var ops := [SetOp(path, a, now), SetOp(path, b, now)];
    var q := env.json.text(path);
    var child := KV_ROOT + FirstSegment(q) + "/";
    UnwrittenPathIsStored(env.json, path, a, b, now);
    ListingShowsRecords(env, store, RecordRun(EMPTY, env.json, ops).0, "", child);
    assert KV_ROOT + "" == KV_ROOT && q[|""|..] == q;
    assert Holds(RecordRun(EMPTY, env.json, ops).0, MetaSlot(q));
    assert LeadsToRecord(RecordRun(EMPTY, env.json, ops).0, "", child) by {
      assert MetaSlot(q).path == q;
    }
    if FirstSegment(q) != FirstSegment(path) {
      assert path[|""|..] == path;
      SegmentsDiffer(FirstSegment(q), FirstSegment(path));
    }
  }

  lemma {:induction false} SegmentsDiffer(a: string, b: string)
    requires a != b
    ensures KV_ROOT + a + "/" != KV_ROOT + "" + b + "/"
  {
    assert a == (KV_ROOT + a + "/")[|KV_ROOT|..|KV_ROOT + a|];
    assert b == (KV_ROOT + "" + b + "/")[|KV_ROOT|..|KV_ROOT + b|];
  }

  /** Directories and records never look alike: only directories end in a slash. */
  lemma {:induction false} KindsOfChildren(vault: Vault, prefix: string, child: string)
    ensures LeadsToSecret(vault, prefix, child) ==> HasSuffix(child, "/")
    ensures IsOwnSlot(vault, prefix, child) ==> !HasSuffix(child, "/")
  {
    if IsOwnSlot(vault, prefix, child) {
      var slot :| HasSlot(vault, slot) && prefix == slot.path + "/" && child == KV_ROOT + prefix + Tag(slot);
      assert child[|child| - 1] == Tag(slot)[|Tag(slot)| - 1];
    }
  }
}
