/**
 Byte order on strings, the ascending key sequence of a finite set, and how prefixes
 and one-level truncation sit in that order.
 */
module Order {
  import opened Text

  /** bytes.Compare(a, b) < 0, the order BadgerDB iterates in. */
  predicate Less(a: string, b: string) {
    if b == [] then false
    else if a == [] then true
    else a[0] < b[0] || (a[0] == b[0] && Less(a[1..], b[1..]))
  }

  lemma {:induction false} LessIrreflexive(a: string)
    ensures !Less(a, a)
  {
    if a != [] { LessIrreflexive(a[1..]); }
  }

  lemma {:induction false} LessTransitive(a: string, b: string, c: string)
    requires Less(a, b) && Less(b, c)
    ensures Less(a, c)
  {
    if a != [] && a[0] == b[0] == c[0] {
      LessTransitive(a[1..], b[1..], c[1..]);
    }
  }

  lemma {:induction false} LessTotal(a: string, b: string)
    ensures a == b || Less(a, b) || Less(b, a)
  {
    if a != [] && b != [] && a[0] == b[0] {
      LessTotal(a[1..], b[1..]);
      assert a == [a[0]] + a[1..] && b == [b[0]] + b[1..];
    }
  }

  /** A string never comes before one of its prefixes. */
  lemma {:induction false} PrefixFirst(p: string, s: string)
    requires p <= s
    ensures !Less(s, p)
  {
    if p != [] {
      PrefixFirst(p[1..], s[1..]);
    }
  }

  /** Once the scan has passed the keys that start with p, no later key starts with p. */
  lemma {:induction false} BeyondPrefix(p: string, y: string, z: string)
    requires !Less(y, p) && !(p <= y) && Less(y, z)
    ensures !(p <= z)
  {
    if p != [] && y != [] && p[0] == y[0] == z[0] {
      assert p == [p[0]] + p[1..] && y == [y[0]] + y[1..];
      BeyondPrefix(p[1..], y[1..], z[1..]);
    }
  }

  lemma {:induction false} LessUnderPrefix(p: string, a: string, b: string)
    ensures Less(p + a, p + b) <==> Less(a, b)
  {
    if p == [] {
      assert p + a == a && p + b == b;
    } else {
      LessUnderPrefix(p[1..], a, b);
      assert (p + a)[1..] == p[1..] + a;
      assert (p + b)[1..] == p[1..] + b;
    }
  }

  /** Byte order said on the bytes: a proper prefix comes first, and otherwise the first difference decides. */
  ghost predicate ByteBefore(a: string, b: string) {
    (a <= b && a != b) || exists i :: FirstDifference(a, b, i)
  }

  ghost predicate FirstDifference(a: string, b: string, i: int) {
    0 <= i < |a| && i < |b| && a[..i] == b[..i] && a[i] < b[i]
  }

  lemma {:induction false} LessIsByteOrder(a: string, b: string)
    ensures Less(a, b) <==> ByteBefore(a, b)
  {
    if a != [] && b != [] {
      if a[0] == b[0] {
        LessIsByteOrder(a[1..], b[1..]);
        SameFirstByte(a, b);
      } else if a[0] < b[0] {
        assert FirstDifference(a, b, 0);
      } else {
        forall i ensures !FirstDifference(a, b, i) {
          if i > 0 && i < |a| && i < |b| { assert a[..i][0] == a[0] && b[..i][0] == b[0]; }
        }
      }
    }
  }

  lemma {:induction false} SameFirstByte(a: string, b: string)
    requires a != [] && b != [] && a[0] == b[0]
    ensures ByteBefore(a, b) <==> ByteBefore(a[1..], b[1..])
  {
    var x, y := a[1..], b[1..];
    assert a == [a[0]] + x && b == [b[0]] + y;
    if exists i :: FirstDifference(a, b, i) {
      var i :| FirstDifference(a, b, i);
      assert i > 0 && x[..i - 1] == a[..i][1..] && y[..i - 1] == b[..i][1..];
      assert FirstDifference(x, y, i - 1);
    }
    if exists i :: FirstDifference(x, y, i) {
      var i :| FirstDifference(x, y, i);
      assert a[..i + 1] == [a[0]] + x[..i] && b[..i + 1] == [b[0]] + y[..i];
      assert FirstDifference(a, b, i + 1);
    }
  }

  // ---- ascending sequences ----

  /** Every element comes before all later ones, byte by byte. */
  ghost predicate InByteOrder(s: seq<string>) {
    forall i, j :: 0 <= i < j < |s| ==> ByteBefore(s[i], s[j])
  }

  lemma {:induction false} AscendingIsByteOrder(s: seq<string>)
    ensures Ascending(s) <==> InByteOrder(s)
  {
    forall i, j | 0 <= i < j < |s| ensures Less(s[i], s[j]) <==> ByteBefore(s[i], s[j]) {
      LessIsByteOrder(s[i], s[j]);
    }
  }

  ghost predicate Ascending(s: seq<string>) {
    forall i, j :: 0 <= i < j < |s| ==> Less(s[i], s[j])
  }

  /** `r` lists the elements of `s`, each once, in byte order. */
  ghost predicate Enumerates(r: seq<string>, s: set<string>) {
    Ascending(r) && forall k :: k in r <==> k in s
  }

  predicate IsMinimum(m: string, s: set<string>) {
    m in s && forall k | k in s :: k != m ==> Less(m, k)
  }

  lemma {:induction false} MinimumUnique(m: string, n: string, s: set<string>)
    requires IsMinimum(m, s) && IsMinimum(n, s)
    ensures m == n
  {
    if m != n {
      LessTransitive(m, n, m);
      LessIrreflexive(m);
    }
  }

  lemma {:induction false} MinimumExists(s: set<string>)
    requires s != {}
    ensures exists m :: IsMinimum(m, s)
  {
    var x :| x in s;
    var rest := s - {x};
    if rest == {} {
      assert forall k :: k in s ==> k == x || k in rest;
      assert IsMinimum(x, s);
    } else {
      MinimumExists(rest);
      var m :| IsMinimum(m, rest);
      LessTotal(x, m);
      if Less(x, m) {
        forall k | k in s && k != x ensures Less(x, k) {
          if k != m { LessTransitive(x, m, k); }
        }
        assert IsMinimum(x, s);
      } else {
        assert x != m && Less(m, x);
        assert IsMinimum(m, s);
      }
    }
  }

  /** The keys of a snapshot in iteration order. */
  function SortedKeys(s: set<string>): (r: seq<string>)
    ensures Enumerates(r, s)
    decreases |s|
  {
    if s == {} then []
    else
      MinimumExists(s);
      assert forall m, n :: IsMinimum(m, s) && IsMinimum(n, s) ==> m == n by {
        forall m, n | IsMinimum(m, s) && IsMinimum(n, s) ensures m == n {
          MinimumUnique(m, n, s);
        }
      }
      var m :| m in s && IsMinimum(m, s);
      var tail := SortedKeys(s - {m});
      assert forall k :: k in s <==> k == m || k in tail;
      assert forall j :: 0 <= j < |tail| ==> tail[j] in tail;
      [m] + tail
  }

  /** There is only one such list. */
  lemma {:induction false} EnumerationUnique(a: seq<string>, b: seq<string>, s: set<string>)
    requires Enumerates(a, s) && Enumerates(b, s)
    ensures a == b
    decreases |a|
  {
    assert b != [] ==> b[0] in b && b[0] in a;
    if a != [] {
      assert a[0] in a;
      HeadsAgree(a, b);
      TailElements(a);
      TailElements(b);
      EnumerationUnique(a[1..], b[1..], s - {a[0]});
      assert a == [a[0]] + a[1..];
      assert b == [b[0]] + b[1..];
    }
  }

  lemma {:induction false} HeadsAgree(a: seq<string>, b: seq<string>)
    requires Ascending(a) && Ascending(b)
    requires a != [] && b != [] && a[0] in b && b[0] in a
    ensures a[0] == b[0]
  {
    if a[0] != b[0] {
      LessTransitive(a[0], b[0], a[0]);
      LessIrreflexive(a[0]);
    }
  }

  lemma {:induction false} TailElements(a: seq<string>)
    requires Ascending(a) && a != []
    ensures Ascending(a[1..])
    ensures forall k :: k in a[1..] <==> k in a && k != a[0]
  {
    forall k | k in a[1..] ensures k in a && k != a[0] {
      LessIrreflexive(a[0]);
    }
    forall k | k in a && k != a[0] ensures k in a[1..] {
      var i :| 0 <= i < |a| && a[i] == k;
      assert a[1..][i - 1] == k;
    }
  }

  // ---- one level below a prefix ----

  /** The text up to and including the first slash. */
  function FirstLevel(rest: string): string {
    if rest == [] then []
    else if rest[0] == '/' then "/"
    else [rest[0]] + FirstLevel(rest[1..])
  }

  /** Splitting once at a slash and putting the slash back gives the first level. */
  lemma {:induction false} FirstLevelIsSplit(rest: string)
    ensures var parts := SplitN(rest, '/', 2);
            FirstLevel(rest) == if |parts| > 1 then parts[0] + "/" else parts[0]
  {
    if rest != [] && rest[0] != '/' {
      var i := IndexOf(rest, '/');
      var t := rest[1..];
      FirstLevelIsSplit(t);
      if i < |rest| {
        assert SplitN(rest, '/', 2) == [rest[..i], rest[i + 1..]];
        assert SplitN(t, '/', 2) == [t[..i - 1], t[i..]];
        assert rest[..i] == [rest[0]] + t[..i - 1];
      }
    }
  }

  /** Truncating at the first slash keeps byte order (weakly). */
  lemma {:induction false} FirstLevelMonotone(a: string, b: string)
    requires Less(a, b)
    ensures FirstLevel(a) == FirstLevel(b) || Less(FirstLevel(a), FirstLevel(b))
  {
    if a != [] && a[0] == b[0] && a[0] != '/' {
      FirstLevelMonotone(a[1..], b[1..]);
    }
  }

  /** The child of directory `dir` under which key `k` shows. */
  function Child(dir: string, k: string): string
    requires dir <= k
  {
    dir + FirstLevel(k[|dir|..])
  }

  ghost function ChildrenOf(keys: set<string>, dir: string): set<string> {
    set k | k in keys && dir <= k :: Child(dir, k)
  }

  lemma {:induction false} ChildMonotone(dir: string, a: string, b: string)
    requires dir <= a && dir <= b && Less(a, b)
    ensures Child(dir, a) == Child(dir, b) || Less(Child(dir, a), Child(dir, b))
  {
    var ra, rb := a[|dir|..], b[|dir|..];
    assert a == dir + ra && b == dir + rb;
    LessUnderPrefix(dir, ra, rb);
    FirstLevelMonotone(ra, rb);
    LessUnderPrefix(dir, FirstLevel(ra), FirstLevel(rb));
  }

  ghost predicate WeaklyAscending(s: seq<string>) {
    forall i, j :: 0 <= i < j < |s| ==> s[i] == s[j] || Less(s[i], s[j])
  }

  /** Every key truncated to its child, in the same order, with repeats. */
  ghost function Truncated(dir: string, keys: seq<string>): (cs: seq<string>)
    requires forall j :: 0 <= j < |keys| ==> dir <= keys[j]
    ensures |cs| == |keys| && forall j :: 0 <= j < |keys| ==> cs[j] == Child(dir, keys[j])
  {
    seq(|keys|, j requires 0 <= j < |keys| => Child(dir, keys[j]))
  }

  lemma {:induction false} TruncatedSnoc(dir: string, keys: seq<string>, i: nat)
    requires i < |keys| && forall j :: 0 <= j < |keys| ==> dir <= keys[j]
    ensures Truncated(dir, keys[..i + 1]) == Truncated(dir, keys[..i]) + [Child(dir, keys[i])]
  {
  }

  /** Truncation keeps the order of the keys, so equal children are neighbours. */
  lemma {:induction false} TruncatedAscends(dir: string, keys: seq<string>)
    requires Ascending(keys) && forall j :: 0 <= j < |keys| ==> dir <= keys[j]
    ensures WeaklyAscending(Truncated(dir, keys))
  {
    var cs := Truncated(dir, keys);
    forall i, j | 0 <= i < j < |cs| ensures cs[i] == cs[j] || Less(cs[i], cs[j]) {
      ChildMonotone(dir, keys[i], keys[j]);
    }
  }

  /** The order of first occurrences: what a loop with a `seen` set keeps. */
  function DropRepeats(cs: seq<string>): seq<string> {
    if cs == [] then []
    else
      var init, last := cs[..|cs| - 1], cs[|cs| - 1];
      if last in init then DropRepeats(init) else DropRepeats(init) + [last]
  }

  lemma {:induction false} DropRepeatsElements(cs: seq<string>, c: string)
    ensures c in DropRepeats(cs) <==> c in cs
  {
    if cs != [] {
      var init, last := cs[..|cs| - 1], cs[|cs| - 1];
      DropRepeatsElements(init, c);
      assert cs == init + [last];
    }
  }

  lemma {:induction false} DropRepeatsSnoc(cs: seq<string>, c: string)
    ensures DropRepeats(cs + [c]) == if c in DropRepeats(cs) then DropRepeats(cs) else DropRepeats(cs) + [c]
  {
    assert (cs + [c])[..|cs|] == cs;
    DropRepeatsElements(cs, c);
  }

  /** What a loop keeps that only compares with the previous element. */
  function DropAdjacent(cs: seq<string>): seq<string> {
    if cs == [] then []
    else
      var init, last := cs[..|cs| - 1], cs[|cs| - 1];
      if init != [] && init[|init| - 1] == last then DropAdjacent(init) else DropAdjacent(init) + [last]
  }

  /** On truncated ascending keys, "seen before" and "same as the previous child" are the same test. */
  lemma {:induction false} SeenIsAdjacent(cs: seq<string>)
    requires WeaklyAscending(cs) && cs != []
    ensures var init, last := cs[..|cs| - 1], cs[|cs| - 1];
            last in init <==> init != [] && init[|init| - 1] == last
  {
    var init, last := cs[..|cs| - 1], cs[|cs| - 1];
    if last in init {
      var j :| 0 <= j < |init| && init[j] == last;
      var prev := init[|init| - 1];
      assert init[j] == cs[j] && prev == cs[|cs| - 2];
      if prev != last {
        LessTransitive(cs[j], prev, last);
        LessIrreflexive(last);
      }
    }
  }

  lemma {:induction false} DropRepeatsIsDropAdjacent(cs: seq<string>)
    requires WeaklyAscending(cs)
    ensures DropRepeats(cs) == DropAdjacent(cs)
  {
    if cs != [] {
      SeenIsAdjacent(cs);
      DropRepeatsIsDropAdjacent(cs[..|cs| - 1]);
    }
  }

  lemma {:induction false} DropRepeatsAscends(cs: seq<string>)
    requires WeaklyAscending(cs)
    ensures Ascending(DropRepeats(cs))
    ensures cs != [] ==> DropRepeats(cs) != [] && DropRepeats(cs)[|DropRepeats(cs)| - 1] == cs[|cs| - 1]
  {
    if cs != [] {
      var init, last := cs[..|cs| - 1], cs[|cs| - 1];
      SeenIsAdjacent(cs);
      DropRepeatsAscends(init);
      var r := DropRepeats(init);
      if last !in init && init != [] {
        assert init[|init| - 1] == cs[|cs| - 2];
        forall j | 0 <= j < |r| ensures Less(r[j], last) {
          if j < |r| - 1 { LessTransitive(r[j], r[|r| - 1], last); }
        }
      }
    }
  }
}
