/** Policies: which rules match a path, and how a list of rules decides. */
module Policy {
  import opened Wrappers
  import opened Text

  type Capability = string

  const CAP_READ: Capability := "read"
  const CAP_WRITE: Capability := "write"
  const CAP_DELETE: Capability := "delete"
  const CAP_LIST: Capability := "list"
  const CAP_ENCRYPT: Capability := "encrypt"
  const CAP_DECRYPT: Capability := "decrypt"

  datatype Rule = Rule(path: string, capabilities: seq<Capability>, deny: bool)

  datatype Policy = Policy(name: string, description: string, rules: seq<Rule>)

  const KV_TREE := Rule("secrets/kv/*", [CAP_READ, CAP_WRITE, CAP_DELETE, CAP_LIST], false)
  const TRANSIT_TREE := Rule("secrets/transit/*", [CAP_ENCRYPT, CAP_DECRYPT], false)

  function Builtin(name: string): Option<Policy> {
    if name == "readonly" then
      Some(Policy("readonly", "Read and list all KV secrets", [Rule("secrets/kv/*", [CAP_READ, CAP_LIST], false)]))
    else if name == "readwrite" then
      Some(Policy("readwrite", "Full access to KV secrets and transit encrypt/decrypt", [KV_TREE, TRANSIT_TREE]))
    else if name == "admin" then
      Some(Policy("admin", "Full access to all secret engines", [KV_TREE, TRANSIT_TREE]))
    else None
  }

  /** A pattern ends in one wildcard segment or is matched exactly. */
  predicate MatchPath(pattern: string, path: string) {
    if HasSuffix(pattern, "/*") then
      var prefix := pattern[..|pattern| - 2];
      prefix + "/" <= path || path == prefix
    else pattern == path
  }

  // ---- the meaning of a rule list ----

  ghost predicate Denied(rules: seq<Rule>, path: string) {
    exists r :: r in rules && MatchPath(r.path, path) && r.deny
  }

  ghost predicate Offered(rules: seq<Rule>, path: string, cap: Capability) {
    exists r :: r in rules && MatchPath(r.path, path) && !r.deny && cap in r.capabilities
  }

  /** No matching rule denies, and some matching rule has the capability. */
  ghost predicate Grants(rules: seq<Rule>, path: string, cap: Capability) {
    !Denied(rules, path) && Offered(rules, path, cap)
  }

  type Policies = map<string, Policy>

  /** Loaded policies hide built-in ones of the same name. */
  function Find(policies: Policies, name: string): Option<Policy> {
    if name in policies then Some(policies[name]) else Builtin(name)
  }

  /** The decision: `root` may do anything, an unknown policy nothing. */
  ghost predicate Permits(policies: Policies, policyName: string, path: string, cap: Capability) {
    policyName == "root"
    || match Find(policies, policyName)
       case None => false
       case Some(p) => Grants(p.rules, path, cap)
  }

  /** The order of rules, and their repetition, do not matter. */
  lemma {:induction false} OrderIrrelevant(a: seq<Rule>, b: seq<Rule>, path: string, cap: Capability)
    requires multiset(a) == multiset(b)
    ensures Grants(a, path, cap) <==> Grants(b, path, cap)
  {
    forall r ensures r in a <==> r in b {
      assert r in multiset(a) <==> r in multiset(b);
    }
  }

  /** Adding a rule anywhere: an allow rule never revokes, a deny rule never grants. */
  lemma {:induction false} AddingRules(front: seq<Rule>, rule: Rule, back: seq<Rule>, path: string, cap: Capability)
    ensures !rule.deny && Grants(front + back, path, cap) ==> Grants(front + [rule] + back, path, cap)
    ensures rule.deny && Grants(front + [rule] + back, path, cap) ==> Grants(front + back, path, cap)
  {
    var fewer, more := front + back, front + [rule] + back;
    forall r ensures r in more <==> r in fewer || r == rule {
      assert r in more <==> r in front || r in [rule] || r in back;
    }
  }

  // ---- patterns and path segments ----

  /** `path` lies in the tree below `root`, or is its root. */
  predicate InTree(root: string, path: string) {
    root + "/" <= path || path == root
  }

  /** A text that holds a slash is its first segment, the slash and the rest, and so are its segments. */
  lemma {:induction false} CutAtSlash(s: string)
    requires IndexOf(s, '/') < |s|
    ensures s == s[..IndexOf(s, '/')] + "/" + s[IndexOf(s, '/') + 1..]
    ensures Split(s, '/') == [s[..IndexOf(s, '/')]] + Split(s[IndexOf(s, '/') + 1..], '/')
  {
    CutAt(s, IndexOf(s, '/'));
  }

  lemma {:induction false} SlashInherited(root: string, path: string)
    requires InTree(root, path) && IndexOf(root, '/') < |root|
    ensures IndexOf(path, '/') < |path|
  {
    var i := IndexOf(root, '/');
    assert root + "/" <= path ==> path[i] == (root + "/")[i];
    assert path[i] == '/';
  }

  /** Being in a tree is having the segments of its root as first segments. */
  lemma {:induction false} TreeIsSegmentPrefix(root: string, path: string)
    ensures InTree(root, path) <==> Split(root, '/') <= Split(path, '/')
    decreases |root|
  {
    var i, j := IndexOf(root, '/'), IndexOf(path, '/');
    if i == |root| {
      OneSegment(root, path);
    } else {
      CutAtSlash(root);
      if j < |path| {
        CutAtSlash(path);
        TreeIsSegmentPrefix(root[i + 1..], path[j + 1..]);
        SameHead(root[..i], root[i + 1..], path[..j], path[j + 1..]);
      } else {
        assert |Split(root, '/')| > 1 && |Split(path, '/')| == 1;
        if InTree(root, path) { SlashInherited(root, path); }
      }
    }
  }

  lemma {:induction false} OneSegment(root: string, path: string)
    requires IndexOf(root, '/') == |root|
    ensures InTree(root, path) <==> Split(root, '/') <= Split(path, '/')
  {
    var j := IndexOf(path, '/');
    assert Split(root, '/') == [root];
    assert Split(path, '/')[0] == path[..j];
    if root + "/" <= path {
      assert path[|root|] == '/' && forall k :: 0 <= k < |root| ==> path[k] == root[k];
      assert j == |root| && path[..j] == root;
    }
    if path[..j] == root && j < |path| {
      assert path[..j + 1] == root + "/";
    }
  }

  /** Comparing two cut paths is comparing their heads and then their tails. */
  lemma {:induction false} SameHead(a: string, p: string, b: string, q: string)
    requires '/' !in a && '/' !in b
    ensures InTree(a + "/" + p, b + "/" + q) <==> a == b && InTree(p, q)
    ensures [a] + Split(p, '/') <= [b] + Split(q, '/') <==> a == b && Split(p, '/') <= Split(q, '/')
  {
    var root, path := a + "/" + p, b + "/" + q;
    var sa, sb := [a] + Split(p, '/'), [b] + Split(q, '/');
    assert sa[1..] == Split(p, '/') && sb[1..] == Split(q, '/');
    if sa <= sb { assert sa[0] == sb[0] && sa[1..] <= sb[1..]; }
    if a == b {
      assert root + "/" == a + "/" + (p + "/");
      var h := a + "/";
      assert path == h + q && root == h + p && root + "/" == h + (p + "/");
      PrefixUnder(h, p + "/", q);
      PrefixUnder(h, p, q);
    } else if InTree(root, path) {
      FirstSlash(a, p, b, q);
    }
  }

  lemma {:induction false} PrefixUnder(h: string, x: string, y: string)
    ensures h + x <= h + y <==> x <= y
    ensures h + x == h + y <==> x == y
  {
    assert (h + x)[|h|..] == x && (h + y)[|h|..] == y;
    if h + x <= h + y { assert x == (h + y)[..|h| + |x|][|h|..] == y[..|x|]; }
  }

  /** Two texts that agree up to their first slash have the same first segment. */
  lemma {:induction false} FirstSlash(a: string, p: string, b: string, q: string)
    requires '/' !in a && '/' !in b && InTree(a + "/" + p, b + "/" + q)
    ensures a == b
  {
    var root, path := a + "/" + p, b + "/" + q;
    assert forall k :: 0 <= k < |root| ==> root[k] == path[k];
    assert IndexOf(root, '/') ==
        |a| by { assert root[|a|] == '/' && forall k :: 0 <= k < |a| ==> root[k] == a[k] && a[k] in a; }
    assert IndexOf(path, '/') ==
        |b| by { assert path[|b|] == '/' && forall k :: 0 <= k < |b| ==> path[k] == b[k] && b[k] in b; }
    assert path[|a|] == '/' && forall k :: 0 <= k < |a| ==> path[k] != '/';
    assert a == root[..|a|] == path[..|a|] == b;
  }

  /** The tree below a root: its segments, and any further ones, joined. */
  lemma {:induction false} TreeIsJoin(root: string, path: string)
    ensures InTree(root, path) <==> exists rest :: path == Join(Split(root, '/') + rest, '/')
  {
    var front := Split(root, '/');
    JoinSplit(root, '/');
    if InTree(root, path) {
      TreeIsSegmentPrefix(root, path);
      JoinSplit(path, '/');
      var rest := Split(path, '/')[|front|..];
      assert front + rest == Split(path, '/');
    }
    forall rest | path == Join(front + rest, '/') ensures InTree(root, path) {
      if rest == [] { assert front + rest == front; } else { JoinAppend(front, rest, '/'); }
    }
  }

  /**
   A wildcard pattern matches iff its segments before the wildcard are the first segments of the path, that
   is iff the path is made of those and any others.
   */
  lemma {:induction false} WildcardMatches(root: string, path: string)
    ensures MatchPath(root + "/*", path) <==> Split(root, '/') <= Split(path, '/')
    ensures MatchPath(root + "/*", path) <==> exists rest :: path == Join(Split(root, '/') + rest, '/')
  {
    var pattern := root + "/*";
    assert pattern[..|pattern| - 2] == root && HasSuffix(pattern, "/*");
    TreeIsSegmentPrefix(root, path);
    TreeIsJoin(root, path);
  }

  // ---- patterns without a wildcard ----

  /** The pattern does not end in a slash and a star. */
  predicate IsExact(pattern: string) {
    |pattern| < 2 || pattern[|pattern| - 2] != '/' || pattern[|pattern| - 1] != '*'
  }

  /** Such a pattern matches itself and nothing else. */
  lemma {:induction false} ExactMatches(pattern: string, path: string)
    requires IsExact(pattern)
    ensures MatchPath(pattern, path) <==> path == pattern
  {
    if |pattern| >= 2 {
      var last := pattern[|pattern| - 2..];
      assert last[0] == pattern[|pattern| - 2] && last[1] == pattern[|pattern| - 1];
    }
  }

  /** A loaded policy of exact rules grants a capability on exactly the paths it lists with it and does not deny. */
  lemma {:induction false} ExactPolicyGrants(policies: Policies, name: string, path: string, cap: Capability)
    requires name in policies && name != "root"
    requires forall r :: r in policies[name].rules ==> IsExact(r.path)
    ensures Permits(policies, name, path, cap) <==>
              && (exists r :: r in policies[name].rules && r.path == path && !r.deny && cap in r.capabilities)
              && (forall r :: r in policies[name].rules && r.path == path ==> !r.deny)
  {
    forall r | r in policies[name].rules ensures MatchPath(r.path, path) <==> path == r.path {
      ExactMatches(r.path, path);
    }
  }

  /** Whose rules decide: `root` needs none, a loaded policy comes before a built-in one, any other name has none. */
  lemma {:induction false} WhoDecides(policies: Policies, name: string, path: string, cap: Capability)
    ensures name == "root" ==> Permits(policies, name, path, cap)
    ensures name != "root" && name in policies ==>
              (Permits(policies, name, path, cap) <==> Grants(policies[name].rules, path, cap))
    ensures name !in policies && name in ["readonly", "readwrite", "admin"] ==>
              (Permits(policies, name, path, cap) <==> Permits(map[], name, path, cap))
    ensures name !in policies && name !in ["root", "readonly", "readwrite", "admin"] ==>
              !Permits(policies, name, path, cap)
  {
  }

  // ---- the built-in policies ----

  lemma {:induction false} BuiltinTrees(path: string)
    ensures MatchPath("secrets/kv/*", path) <==> InTree("secrets/kv", path)
    ensures MatchPath("secrets/transit/*", path) <==> InTree("secrets/transit", path)
  {
    assert "secrets/kv/*"[..10] == "secrets/kv";
    assert "secrets/transit/*"[..15] == "secrets/transit";
  }

  /** What the built-in policies grant. `admin` grants exactly what `readwrite` grants. */
  lemma {:induction false} BuiltinsMean(path: string, cap: Capability)
    ensures Permits(map[], "readonly", path, cap) <==> InTree("secrets/kv", path) && cap in ["read", "list"]
    ensures Permits(map[], "readwrite", path, cap) <==>
              || (InTree("secrets/kv", path) && cap in ["read", "write", "delete", "list"])
              || (InTree("secrets/transit", path) && cap in ["encrypt", "decrypt"])
    ensures Permits(map[], "admin", path, cap) <==> Permits(map[], "readwrite", path, cap)
  {
    BuiltinTrees(path);
    var reader := Rule("secrets/kv/*", [CAP_READ, CAP_LIST], false);
    assert reader in [reader];
    assert KV_TREE in [KV_TREE, TRANSIT_TREE] && TRANSIT_TREE in [KV_TREE, TRANSIT_TREE];
  }

  // ---- the engine ----

  /** hasCapability. */
  method HasCapability(caps: seq<Capability>, target: Capability) returns (found: bool)
    ensures found <==> target in caps
  {
    for i := 0 to |caps|
      invariant target !in caps[..i]
    {
      if caps[i] == target {
        return true;
      }
    }
    return false;
  }

  /** The loop of Allowed, which stops at the first deny rule that matches. */
  method Decide(rules: seq<Rule>, path: string, cap: Capability) returns (allowed: bool)
    ensures allowed <==> Grants(rules, path, cap)
  {
    allowed := false;
    for i := 0 to |rules|
      invariant forall k :: 0 <= k < i && MatchPath(rules[k].path, path) ==> !rules[k].deny
      invariant allowed <==> exists k :: 0 <= k < i && MatchPath(rules[k].path, path) && cap in rules[k].capabilities
    {
      var rule := rules[i];
      if MatchPath(rule.path, path) {
        if rule.deny {
          assert rule in rules;
          return false;
        }
        var has := HasCapability(rule.capabilities, cap);
        if has {
          allowed := true;
        }
      }
    }
    DecideComplete(rules, path, cap, allowed);
  }

  lemma {:induction false} DecideComplete(rules: seq<Rule>, path: string, cap: Capability, allowed: bool)
    requires forall k :: 0 <= k < |rules| && MatchPath(rules[k].path, path) ==> !rules[k].deny
    requires allowed <==> exists k :: 0 <= k < |rules| && MatchPath(rules[k].path, path) && cap in rules[k].capabilities
    ensures allowed <==> Grants(rules, path, cap)
  {
    if allowed {
      var k :| 0 <= k < |rules| && MatchPath(rules[k].path, path) && cap in rules[k].capabilities;
      assert rules[k] in rules;
    }
  }

  /** A directory entry, with what reading and parsing it gives (None when that fails). */
  datatype DirEntry = DirEntry(name: string, isDir: bool, content: Option<Policy>)

  predicate IsYAML(name: string) {
    HasSuffix(name, ".yaml") || HasSuffix(name, ".yml")
  }

  predicate IsPolicyFile(e: DirEntry) {
    !e.isDir && IsYAML(e.name)
  }

  /** Policy files are the entries that are no directories and whose names end in `.yaml` or `.yml`. */
  lemma {:induction false} PolicyFileNames(e: DirEntry)
    ensures IsPolicyFile(e) <==> !e.isDir && exists stem :: e.name == stem + ".yaml" || e.name == stem + ".yml"
  {
    SuffixMeans(e.name, ".yaml");
    SuffixMeans(e.name, ".yml");
  }

  /** A policy file must parse and name its policy. */
  predicate Loads(e: DirEntry) {
    e.content.Some? && e.content.value.name != ""
  }

  predicate IsFileOf(e: DirEntry, name: string) {
    IsPolicyFile(e) && Loads(e) && e.content.value.name == name
  }

  /** Among the first n entries, `i` is the last policy file of that name. */
  ghost predicate IsLastFile(entries: seq<DirEntry>, n: nat, name: string, i: nat)
    requires n <= |entries|
  {
    i < n && IsFileOf(entries[i], name) && forall k :: i < k < n ==> !IsFileOf(entries[k], name)
  }

  /** `loaded` holds one policy per name in the first n entries, from the last file that carries the name. */
  ghost predicate IsLoadOf(entries: seq<DirEntry>, n: nat, loaded: Policies)
    requires n <= |entries|
  {
    && (forall i :: 0 <= i < n && IsPolicyFile(entries[i]) && Loads(entries[i]) ==>
         entries[i].content.value.name in loaded)
    && (forall name :: name in loaded ==>
          exists i: nat :: IsLastFile(entries, n, name, i) && loaded[name] == entries[i].content.value)
  }

  lemma {:induction false} LoadStep(entries: seq<DirEntry>, n: nat, loaded: Policies)
    requires n < |entries| && IsLoadOf(entries, n, loaded)
    ensures !IsPolicyFile(entries[n]) ==> IsLoadOf(entries, n + 1, loaded)
    ensures IsPolicyFile(entries[n]) && Loads(entries[n]) ==>
              IsLoadOf(entries, n + 1, loaded[entries[n].content.value.name := entries[n].content.value])
  {
    var e := entries[n];
    var isFile := IsPolicyFile(e) && Loads(e);
    var loaded' := if isFile then loaded[e.content.value.name := e.content.value] else loaded;
    if isFile || !IsPolicyFile(e) {
      forall name | name in loaded'
        ensures exists i: nat :: IsLastFile(entries, n + 1, name, i) && loaded'[name] == entries[i].content.value
      {
        if isFile && name == e.content.value.name {
          assert IsLastFile(entries, n + 1, name, n);
        } else {
          var i: nat :| IsLastFile(entries, n, name, i) && loaded[name] == entries[i].content.value;
          assert IsLastFile(entries, n + 1, name, i);
        }
      }
    }
  }

  /** Of the files of one policy the last one counts. */
  lemma {:induction false} LastFileCounts(entries: seq<DirEntry>, loaded: Policies, i: nat)
    requires IsLoadOf(entries, |entries|, loaded) && i < |entries|
    requires IsPolicyFile(entries[i]) && entries[i].content.Some? && entries[i].content.value.name != ""
    requires forall k :: i < k < |entries| && IsPolicyFile(entries[k]) && entries[k].content.Some? ==>
               entries[k].content.value.name != entries[i].content.value.name
    ensures var p := entries[i].content.value;
            p.name in loaded && loaded[p.name] == p
  {
    var name := entries[i].content.value.name;
    assert IsFileOf(entries[i], name);
    var last: nat :| IsLastFile(entries, |entries|, name, last) && loaded[name] == entries[last].content.value;
    assert last == i;
  }

  class Engine {
    var policies: Policies

    constructor ()
      ensures policies == map[]
    {
      policies := map[];
    }

    /** Replaces or adds one policy; the decisions of all other policies stay. */
    method SetPolicy(p: Policy)
      modifies this
      ensures policies == old(policies)[p.name := p]
    {
      policies := policies[p.name := p];
    }

    /**
     Reloading is all or nothing: one bad policy file keeps the old policies. `listing` is what reading the
     directory gave; a directory that does not exist is no error and changes nothing.
     */
    method LoadAll(listing: Result<seq<DirEntry>>) returns (err: Option<Error>)
      modifies this
      ensures listing == Err(NotFound) ==> err.None? && policies == old(policies)
      ensures listing.Err? && listing.error != NotFound ==> err == Some(listing.error)
      ensures listing.Ok? ==>
                (err.None? <==> forall e :: e in listing.value && IsPolicyFile(e) ==>
                   e.content.Some? && e.content.value.name != "")
      ensures listing.Ok? && err.None? ==> IsLoadOf(listing.value, |listing.value|, policies)
      ensures err.Some? ==> policies == old(policies)
    {
      if listing.Err? {
        return if listing.error == NotFound then None else Some(listing.error);
      }
      var entries := listing.value;
      var loaded: Policies := map[];
      for i := 0 to |entries|
        invariant policies == old(policies)
        invariant forall e :: e in entries[..i] && IsPolicyFile(e) ==> Loads(e)
        invariant IsLoadOf(entries, i, loaded)
      {
        LoadStep(entries, i, loaded);
        var e := entries[i];
        assert e in entries && entries[..i + 1] == entries[..i] + [e];
        if !e.isDir && IsYAML(e.name) {
          if e.content.None? || e.content.value.name == "" {
            return Some(UnmarshalFailed);
          }
          var p := e.content.value;
          loaded := loaded[p.name := p];
        }
      }
      assert entries[..|entries|] == entries;
      policies := loaded;
      return None;
    }

    method Allowed(policyName: string, path: string, cap: Capability) returns (allowed: bool)
      ensures allowed <==> Permits(policies, policyName, path, cap)
    {
      if policyName == "root" {
        return true;
      }
      var p: Policy;
      if policyName in policies {
        p := policies[policyName];
      } else {
        var b := Builtin(policyName);
        if b.None? {
          return false;
        }
        p := b.value;
      }
      allowed := Decide(p.rules, path, cap);
    }
  }
}
