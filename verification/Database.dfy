/**
 The flat store: an atomic map from keys to byte strings, iterated in byte order.
 Every method is one transaction. `reliable` is an assumption about the environment: a reliable
 store never returns an I/O error; any other store may fail any call, and then changes nothing.
 Records written with a time to live may vanish between any two calls.
 */
module Database {
  import opened Wrappers
  import opened Text
  import opened Order

  function Lookup(store: map<string, bytes>, key: string): Result<bytes> {
    if key in store then Ok(store[key]) else Err(NotFound)
  }

  ghost function KeysWithPrefix(keys: set<string>, prefix: string): set<string> {
    set k | k in keys && prefix <= k
  }

  /** ListDirect looks below a directory: it completes the prefix with a slash. */
  function Directory(prefix: string): string {
    if HasSuffix(prefix, "/") then prefix else prefix + "/"
  }

  /** A prefix that ends in a slash is the directory itself; to any other one a slash is added. */
  lemma {:induction false} DirectoryMeans(prefix: string)
    ensures prefix != "" && prefix[|prefix| - 1] == '/' ==> Directory(prefix) == prefix
    ensures prefix == "" || prefix[|prefix| - 1] != '/' ==> Directory(prefix) == prefix + "/"
  {
    if prefix != "" { assert prefix[|prefix| - 1..] == [prefix[|prefix| - 1]]; }
  }

  // ---- which part of a store a call touches ----

  /** All keys that do not start with `root` are as they were. */
  ghost predicate SameOutside(store: map<string, bytes>, store': map<string, bytes>, root: string) {
    forall k :: !(root <= k) ==> (k in store <==> k in store') && (k in store ==> store[k] == store'[k])
  }

  /** All keys that start with `root` are as they were. */
  ghost predicate SameBelow(store: map<string, bytes>, store': map<string, bytes>, root: string) {
    forall k :: root <= k ==> (k in store <==> k in store') && (k in store ==> store[k] == store'[k])
  }

  /** Neither root is a prefix of the other, so no key starts with both. */
  predicate DisjointRoots(a: string, b: string) {
    !(a <= b) && !(b <= a)
  }

  lemma {:induction false} PrefixesCompare(a: string, b: string, k: string)
    requires a <= k && b <= k
    ensures a <= b || b <= a
  {
    if |a| <= |b| { assert a == k[..|a|] == b[..|a|]; } else { assert b == k[..|b|] == a[..|b|]; }
  }

  /** A call that stays below its own root touches nothing below a root that shares no key with it. */
  lemma {:induction false} OutsideIsBelow(store: map<string, bytes>, store': map<string, bytes>, own: string,
                                          other: string)
    requires DisjointRoots(own, other) && SameOutside(store, store', own)
    ensures SameBelow(store, store', other)
  {
    forall k | other <= k ensures (k in store <==> k in store') && (k in store ==> store[k] == store'[k]) {
      if own <= k { PrefixesCompare(own, other, k); }
    }
  }

  lemma {:induction false} PrefixTransitive(a: string, b: string, k: string)
    requires a <= b && b <= k
    ensures a <= k
  {
    assert a == b[..|a|] == k[..|a|];
  }

  /** A call that stays below a root stays below every prefix of it. */
  lemma {:induction false} OutsideWider(store: map<string, bytes>, store': map<string, bytes>, narrow: string,
                                        wide: string)
    requires wide <= narrow && SameOutside(store, store', narrow)
    ensures SameOutside(store, store', wide)
  {
    forall k | !(wide <= k) ensures (k in store <==> k in store') && (k in store ==> store[k] == store'[k]) {
      if narrow <= k { PrefixTransitive(wide, narrow, k); }
    }
  }

  /** A cursor over the keys of a snapshot. */
  class Iterator {
    const keys: seq<string>
    var pos: nat

    ghost predicate Valid()
      reads this
    {
      Ascending(keys) && pos <= |keys|
    }

    constructor (store: map<string, bytes>)
      ensures Valid() && pos == 0 && Enumerates(keys, store.Keys)
    {
      keys := SortedKeys(store.Keys);
      pos := 0;
    }

    /** Moves to the first key that is not before p. */
    method Seek(p: string)
      requires Valid()
      modifies this
      ensures Valid()
      ensures forall j :: 0 <= j < pos ==> Less(keys[j], p)
      ensures pos < |keys| ==> !Less(keys[pos], p)
    {
      pos := 0;
      while pos < |keys| && Less(keys[pos], p)
        invariant Valid()
        invariant forall j :: 0 <= j < pos ==> Less(keys[j], p)
      {
        pos := pos + 1;
      }
    }

    predicate ValidForPrefix(p: string)
      reads this
    {
      pos < |keys| && p <= keys[pos]
    }
  }

  /** Where the cursor stands, and what the scan loop has collected so far. */
  ghost predicate ScanInvariant(keys: seq<string>, start: nat, pos: nat, p: string) {
    && Ascending(keys) && start <= pos <= |keys|
    && (forall j :: 0 <= j < start ==> Less(keys[j], p))
    && (forall j :: start <= j < pos ==> p <= keys[j])
    && (start < |keys| ==> !Less(keys[start], p))
  }

  /** When the scan stops, everything with the prefix has been passed, and nothing else was collected. */
  lemma {:induction false} ScanComplete(keys: seq<string>, start: nat, pos: nat, p: string, i: nat)
    requires ScanInvariant(keys, start, pos, p) && i < |keys|
    requires pos == |keys| || !(p <= keys[pos])
    ensures p <= keys[i] <==> start <= i < pos
  {
    if i < start {
      if p <= keys[i] { PrefixFirst(p, keys[i]); }
    } else if i >= pos {
      if start < pos {
        if Less(keys[pos], p) {
          PrefixFirst(p, keys[start]);
          LessTransitive(keys[start], keys[pos], p);
        }
      }
      if i > pos { BeyondPrefix(p, keys[pos], keys[i]); }
    }
  }

  /** `result` is the store cut down to the keys found. */
  ghost predicate IsCutDown(store: map<string, bytes>, found: seq<string>, result: map<string, bytes>) {
    && (forall k :: k in result <==> k in found)
    && (forall k :: k in result ==> k in store && result[k] == store[k])
  }

  /** What Scan has done between its seek and the position of the cursor. */
  ghost predicate IsScan(store: map<string, bytes>, keys: seq<string>, start: nat, pos: nat, p: string,
                         result: map<string, bytes>)
  {
    && start <= pos <= |keys|
    && ScanInvariant(keys, start, pos, p)
    && IsCutDown(store, keys[start..pos], result)
  }

  lemma {:induction false} ScanStarts(store: map<string, bytes>, keys: seq<string>, start: nat, p: string)
    requires ScanInvariant(keys, start, start, p)
    ensures IsScan(store, keys, start, start, p, map[])
  {
  }

  lemma {:induction false} ScanStep(store: map<string, bytes>, keys: seq<string>, start: nat, pos: nat, p: string,
                                    result: map<string, bytes>)
    requires Enumerates(keys, store.Keys) && IsScan(store, keys, start, pos, p, result)
    requires pos < |keys| && p <= keys[pos]
    ensures keys[pos] in store
    ensures IsScan(store, keys, start, pos + 1, p, result[keys[pos] := store[keys[pos]]])
  {
    assert keys[pos] in keys;
    assert keys[start..pos + 1] == keys[start..pos] + [keys[pos]];
  }

  /** The loop of Scan, from where the seek has put the cursor. */
  method Collect(store: map<string, bytes>, it: Iterator, prefix: string) returns (result: map<string, bytes>)
    requires Enumerates(it.keys, store.Keys) && ScanInvariant(it.keys, it.pos, it.pos, prefix)
    modifies it
    ensures IsScan(store, it.keys, old(it.pos), it.pos, prefix, result)
    ensures it.pos == |it.keys| || !(prefix <= it.keys[it.pos])
  {
    result := map[];
    ghost var start := it.pos;
    ScanStarts(store, it.keys, start, prefix);
    while it.ValidForPrefix(prefix)
      invariant IsScan(store, it.keys, start, it.pos, prefix, result)
      decreases |it.keys| - it.pos
    {
      ScanStep(store, it.keys, start, it.pos, prefix, result);
      result := result[it.keys[it.pos] := store[it.keys[it.pos]]];
      it.pos := it.pos + 1;
    }
  }

  class DB {
    const reliable: bool
    var store: map<string, bytes>
    var expiring: set<string>   // the keys written with a time to live

    constructor (reliable: bool)
      ensures this.reliable == reliable && store == map[] && expiring == {}
    {
      this.reliable := reliable;
      store := map[];
      expiring := {};
    }

    /** Since the old state no key outside `root` has been touched. */
    twostate predicate StaysBelow(root: string)
      reads this
    {
      && SameOutside(old(store), store, root)
      && forall k :: !(root <= k) ==> (k in expiring <==> k in old(expiring))
    }

    /** A step of the environment: a record with a time to live disappears. */
    method Vanish(key: string)
      requires key in expiring
      modifies this
      ensures store == old(store) - {key} && expiring == old(expiring) - {key}
    {
      store := store - {key};
      expiring := expiring - {key};
    }

    method Get(key: string) returns (r: Result<bytes>)
      ensures r == Lookup(store, key) || (!reliable && r == Err(StorageFailure))
    {
      var failed: bool := *;
      if failed && !reliable {
        return Err(StorageFailure);
      }
      if key in store {
        return Ok(store[key]);
      }
      return Err(NotFound);
    }

    method Set(key: string, value: bytes) returns (err: Option<Error>)
      modifies this
      ensures err.None? ==> store == old(store)[key := value] && expiring == old(expiring) - {key}
      ensures err.Some? ==> !reliable && err.value == StorageFailure && store == old(store) && expiring == old(expiring)
    {
      var failed: bool := *;
      if failed && !reliable {
        return Some(StorageFailure);
      }
      store := store[key := value];
      expiring := expiring - {key};
      return None;
    }

    /** As Set, but from now on the record may vanish: when, is up to the store and the time to live. */
    method SetWithTTL(key: string, value: bytes, ttl: nat) returns (err: Option<Error>)
      modifies this
      ensures err.None? ==> store == old(store)[key := value] && expiring == old(expiring) + {key}
      ensures err.Some? ==> !reliable && err.value == StorageFailure && store == old(store) && expiring == old(expiring)
    {
      err := Set(key, value);
      if err.None? {
        expiring := expiring + {key};
      }
    }

    method Delete(key: string) returns (err: Option<Error>)
      modifies this
      ensures err.None? ==> store == old(store) - {key} && expiring == old(expiring) - {key}
      ensures err.Some? ==> !reliable && err.value == StorageFailure && store == old(store) && expiring == old(expiring)
    {
      var failed: bool := *;
      if failed && !reliable {
        return Some(StorageFailure);
      }
      store := store - {key};
      expiring := expiring - {key};
      return None;
    }

    /** Seek and scan yields exactly the keys with the prefix, in byte order. */
    method List(prefix: string) returns (r: Result<seq<string>>)
      ensures r.Ok? ==> Enumerates(r.value, KeysWithPrefix(store.Keys, prefix)) && InByteOrder(r.value)
      ensures r.Err? ==> !reliable && r.error == StorageFailure
    {
      var failed: bool := *;
      if failed && !reliable {
        return Err(StorageFailure);
      }
      var found: seq<string> := [];
      var it := new Iterator(store);
      it.Seek(prefix);
      ghost var start := it.pos;
      while it.ValidForPrefix(prefix)
        invariant ScanInvariant(it.keys, start, it.pos, prefix)
        invariant found == it.keys[start..it.pos]
        decreases |it.keys| - it.pos
      {
        found := found + [it.keys[it.pos]];
        it.pos := it.pos + 1;
      }
      ScanIsFilter(store, it.keys, start, it.pos, prefix);
      AscendingIsByteOrder(found);
      return Ok(found);
    }

    /** The same scan, collecting values. */
    method Scan(prefix: string) returns (r: Result<map<string, bytes>>)
      ensures r.Ok? ==> forall k :: k in r.value <==> k in KeysWithPrefix(store.Keys, prefix)
      ensures r.Ok? ==> forall k :: k in r.value ==> r.value[k] == store[k]
      ensures r.Err? ==> !reliable && r.error == StorageFailure
    {
      var failed: bool := *;
      if failed && !reliable {
        return Err(StorageFailure);
      }
      var it := new Iterator(store);
      it.Seek(prefix);
      ghost var start := it.pos;
      var result := Collect(store, it, prefix);
      ScanCollects(store, it.keys, start, it.pos, prefix, result);
      return Ok(result);
    }

    /** The one-level children of a directory: each once, ascending, and no others. */
    method ListDirect(prefix: string) returns (r: Result<seq<string>>)
      ensures r.Ok? ==> Enumerates(r.value, ChildrenOf(store.Keys, Directory(prefix))) && InByteOrder(r.value)
      ensures r.Err? ==> !reliable && r.error == StorageFailure
    {
      var dir := prefix;
      if !HasSuffix(dir, "/") {
        dir := dir + "/";
      }
      var listed := List(dir);
      if listed.Err? {
        return Err(listed.error);
      }
      UnderDirectory(dir, listed.value, store.Keys);
      var result := TruncateKeys(dir, listed.value);
      TruncationComplete(dir, listed.value, store.Keys);
      AscendingIsByteOrder(result);
      return Ok(result);
    }
  }

  /** One key cut after its first segment below `dir`. */
  method TruncateKey(dir: string, key: string) returns (child: string)
    requires dir <= key
    ensures child == Child(dir, key)
  {
    FirstLevelIsSplit(key[|dir|..]);
    var parts := SplitN(key[|dir|..], '/', 2);
    child := dir + parts[0];
    if |parts| > 1 {
      assert dir + (parts[0] + "/") == dir + parts[0] + "/";
      child := child + "/";
    }
  }

  /** The loop of ListDirect: one child per key, unless seen before. */
  method TruncateKeys(dir: string, allKeys: seq<string>) returns (result: seq<string>)
    requires forall j :: 0 <= j < |allKeys| ==> dir <= allKeys[j]
    ensures result == DropRepeats(Truncated(dir, allKeys))
  {
    var seen: set<string> := {};
    result := [];
    var i := 0;
    while i < |allKeys|
      invariant i <= |allKeys|
      invariant result == DropRepeats(Truncated(dir, allKeys[..i]))
      invariant forall c :: c in seen <==> c in result
    {
      var child := TruncateKey(dir, allKeys[i]);
      TruncatedSnoc(dir, allKeys, i);
      DropRepeatsSnoc(Truncated(dir, allKeys[..i]), child);
      if child !in seen {
        seen := seen + {child};
        result := result + [child];
      }
      i := i + 1;
    }
    assert allKeys[..i] == allKeys;
  }

  lemma {:induction false} UnderDirectory(dir: string, allKeys: seq<string>, stored: set<string>)
    requires Enumerates(allKeys, KeysWithPrefix(stored, dir))
    ensures forall j :: 0 <= j < |allKeys| ==> dir <= allKeys[j]
  {
    forall j | 0 <= j < |allKeys| ensures dir <= allKeys[j] {
      assert allKeys[j] in allKeys;
    }
  }

  /** What the scan loop collected is every stored key with the prefix. */
  lemma {:induction false} ScanIsFilter(store: map<string, bytes>, keys: seq<string>, start: nat, pos: nat, p: string)
    requires Enumerates(keys, store.Keys) && ScanInvariant(keys, start, pos, p)
    requires pos == |keys| || !(p <= keys[pos])
    ensures Enumerates(keys[start..pos], KeysWithPrefix(store.Keys, p))
  {
    var found := keys[start..pos];
    forall k ensures k in found <==> k in KeysWithPrefix(store.Keys, p) {
      if k in found {
        var i :| 0 <= i < |found| && found[i] == k;
        assert keys[start + i] in keys;
        ScanComplete(keys, start, pos, p, start + i);
      }
      if k in store && p <= k {
        assert k in keys;
        var i :| 0 <= i < |keys| && keys[i] == k;
        ScanComplete(keys, start, pos, p, i);
        assert found[i - start] == k;
      }
    }
  }

  lemma {:induction false} ScanCollects(store: map<string, bytes>, keys: seq<string>, start: nat, pos: nat, p: string,
                                        result: map<string, bytes>)
    requires Enumerates(keys, store.Keys) && IsScan(store, keys, start, pos, p, result)
    requires pos == |keys| || !(p <= keys[pos])
    ensures forall k :: k in result <==> k in KeysWithPrefix(store.Keys, p)
    ensures forall k :: k in result ==> result[k] == store[k]
  {
    ScanIsFilter(store, keys, start, pos, p);
  }

  lemma {:induction false} TruncationComplete(dir: string, allKeys: seq<string>, stored: set<string>)
    requires Enumerates(allKeys, KeysWithPrefix(stored, dir))
    requires forall j :: 0 <= j < |allKeys| ==> dir <= allKeys[j]
    ensures Enumerates(DropRepeats(Truncated(dir, allKeys)), ChildrenOf(stored, dir))
  {
    TruncatedAscends(dir, allKeys);
    DropRepeatsAscends(Truncated(dir, allKeys));
    ChildrenAreTruncations(dir, allKeys, stored);
    forall c ensures c in DropRepeats(Truncated(dir, allKeys)) <==> c in ChildrenOf(stored, dir) {
      DropRepeatsElements(Truncated(dir, allKeys), c);
    }
  }

  lemma {:induction false} ChildrenAreTruncations(dir: string, allKeys: seq<string>, stored: set<string>)
    requires Enumerates(allKeys, KeysWithPrefix(stored, dir))
    requires forall j :: 0 <= j < |allKeys| ==> dir <= allKeys[j]
    ensures forall c :: c in Truncated(dir, allKeys) <==> c in ChildrenOf(stored, dir)
  {
    var cs := Truncated(dir, allKeys);
    forall c ensures c in cs <==> c in ChildrenOf(stored, dir) {
      if c in cs {
        var j :| 0 <= j < |cs| && cs[j] == c;
        assert allKeys[j] in allKeys;
      }
      if c in ChildrenOf(stored, dir) {
        var k :| k in stored && dir <= k && Child(dir, k) == c;
        assert k in allKeys;
        var j :| 0 <= j < |allKeys| && allKeys[j] == k;
        assert cs[j] == c;
      }
    }
  }
}
