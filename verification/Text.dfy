/**
 Byte strings the way the program handles them: one `char` stands for one byte of a Go string.
 Splitting at a separator, cutting at the last slash, and decimal printing (`%d`).
 */
module Text {
  import opened Numbers

  /** strings.HasSuffix. The prefix test is Dafny's own `p <= s`. */
  predicate HasSuffix(s: string, t: string) {
    |t| <= |s| && s[|s| - |t|..] == t
  }

  /** A suffix is what is left behind some beginning. */
  lemma {:induction false} SuffixMeans(s: string, t: string)
    ensures HasSuffix(s, t) <==> exists stem :: s == stem + t
  {
    if HasSuffix(s, t) { assert s == s[..|s| - |t|] + t; }
    forall stem | s == stem + t ensures HasSuffix(s, t) {
      assert |s| - |t| == |stem|;
    }
  }

  /** The first position of `c` in `s`, or |s| when there is none. */
  function IndexOf(s: string, c: char): (i: nat)
    ensures i <= |s| && (i < |s| ==> s[i] == c)
    ensures forall k :: 0 <= k < i ==> s[k] != c
  {
    if s == [] || s[0] == c then 0 else IndexOf(s[1..], c) + 1
  }

  /** The position after the last `c` in `s`, or 0 when there is none. */
  function AfterLast(s: string, c: char): (i: nat)
    ensures i <= |s| && (i > 0 ==> s[i - 1] == c)
    ensures forall k :: i <= k < |s| ==> s[k] != c
  {
    if s == [] then 0
    else if s[|s| - 1] == c then |s|
    else AfterLast(s[..|s| - 1], c)
  }

  lemma {:induction false} AfterLastAt(a: string, c: char, b: string)
    requires forall k :: 0 <= k < |b| ==> b[k] != c
    ensures AfterLast(a + [c] + b, c) == |a| + 1
  {
    var s := a + [c] + b;
    if b != [] {
      var init := b[..|b| - 1];
      AfterLastAt(a, c, init);
      assert s[..|s| - 1] == a + [c] + init;
    }
  }

  /** strings.SplitN for a one-byte separator: at most n pieces, the last one unsplit. */
  function SplitN(s: string, c: char, n: nat): (parts: seq<string>)
    requires n >= 1
    ensures 1 <= |parts| <= n
  {
    var i := IndexOf(s, c);
    if n == 1 || i == |s| then [s] else [s[..i]] + SplitN(s[i + 1..], c, n - 1)
  }

  /** strings.Split. */
  function Split(s: string, c: char): (parts: seq<string>)
    ensures |parts| >= 1
    decreases |s|
  {
    var i := IndexOf(s, c);
    if i == |s| then [s] else [s[..i]] + Split(s[i + 1..], c)
  }

  /** strings.Join. */
  function Join(parts: seq<string>, c: char): string
    requires |parts| >= 1
  {
    if |parts| == 1 then parts[0] else parts[0] + [c] + Join(parts[1..], c)
  }

  /** A text is what comes before a position, the character there, and what comes after. */
  lemma {:induction false} CutAt(s: string, i: nat)
    requires i < |s|
    ensures s == s[..i] + [s[i]] + s[i + 1..]
  {
  }

  lemma {:induction false} JoinCons(first: string, rest: seq<string>, c: char)
    requires |rest| >= 1
    ensures Join([first] + rest, c) == first + [c] + Join(rest, c)
  {
    assert ([first] + rest)[1..] == rest;
  }

  /** Splitting loses nothing. */
  lemma {:induction false} JoinSplit(s: string, c: char)
    ensures Join(Split(s, c), c) == s
    decreases |s|
  {
    var i := IndexOf(s, c);
    if i < |s| {
      var tail := s[i + 1..];
      JoinSplit(tail, c);
      JoinCons(s[..i], Split(tail, c), c);
      CutAt(s, i);
    }
  }

  /** Joining two lists of pieces is joining each, and then the two. */
  lemma {:induction false} JoinAppend(front: seq<string>, back: seq<string>, c: char)
    requires |front| >= 1 && |back| >= 1
    ensures Join(front + back, c) == Join(front, c) + [c] + Join(back, c)
  {
    assert front == [front[0]] + front[1..];
    if |front| > 1 {
      JoinAppend(front[1..], back, c);
      assert front + back == [front[0]] + (front[1..] + back);
      JoinCons(front[0], front[1..] + back, c);
    } else {
      JoinCons(front[0], back, c);
      assert front + back == [front[0]] + back;
    }
  }

  /** No piece holds the separator. */
  lemma {:induction false} PiecesHoldNoSeparator(s: string, c: char)
    ensures forall k :: 0 <= k < |Split(s, c)| ==> c !in Split(s, c)[k]
    decreases |s|
  {
    var i := IndexOf(s, c);
    assert c !in s[..i];
    if i < |s| {
      PiecesHoldNoSeparator(s[i + 1..], c);
    } else {
      assert s[..i] == s;
    }
  }

  /** Of a limited split only the last piece may, and only when there are as many as allowed. */
  lemma {:induction false} LimitedPieces(s: string, c: char, n: nat)
    requires n >= 1
    ensures forall k :: 0 <= k < |SplitN(s, c, n)| && k < n - 1 ==> c !in SplitN(s, c, n)[k]
    ensures Join(SplitN(s, c, n), c) == s
    decreases |s|
  {
    var i := IndexOf(s, c);
    assert c !in s[..i];
    if i == |s| {
      assert s[..i] == s;
    } else if n > 1 {
      var tail := s[i + 1..];
      LimitedPieces(tail, c, n - 1);
      CutAt(s, i);
      JoinCons(s[..i], SplitN(tail, c, n - 1), c);
    }
  }

  lemma {:induction false} SplitFirst(a: string, c: char, b: string)
    requires c !in a
    ensures Split(a + [c] + b, c) == [a] + Split(b, c)
    ensures forall n: nat :: n >= 2 ==> SplitN(a + [c] + b, c, n) == [a] + SplitN(b, c, n - 1)
  {
    var s := a + [c] + b;
    assert s[..|a|] == a;
    assert s[|a|] == c && forall k :: 0 <= k < |a| ==> s[k] == a[k] && a[k] in a;
    assert IndexOf(s, c) == |a|;
    assert s[|a| + 1..] == b;
  }

  // ---- decimal numbers ----

  predicate IsDigit(c: char) {
    '0' <= c <= '9'
  }

  predicate AllDigits(s: string) {
    forall i :: 0 <= i < |s| ==> IsDigit(s[i])
  }

  function Digit(d: nat): (c: char)
    requires d < 10
    ensures IsDigit(c) && DigitValue(c) == d
  {
    (48 + d) as char
  }

  function DigitValue(c: char): (d: nat)
    requires IsDigit(c)
    ensures d < 10
  {
    c as int - 48
  }

  /** What fmt prints for %d and a non-negative argument. */
  function Decimal(n: nat): (s: string)
    ensures s != [] && AllDigits(s)
  {
    if n < 10 then [Digit(n)] else Decimal(n / 10) + [Digit(n % 10)]
  }

  /** The value of a digit string. */
  function DecimalValue(s: string): nat
    requires AllDigits(s)
  {
    if s == [] then 0 else DecimalValue(s[..|s| - 1]) * 10 + DigitValue(s[|s| - 1])
  }

  lemma {:induction false} DecimalRoundTrip(n: nat)
    ensures DecimalValue(Decimal(n)) == n
  {
    var s := Decimal(n);
    if n < 10 {
      assert s[..0] == [];
    } else {
      DecimalRoundTrip(n / 10);
      assert s[..|s| - 1] == Decimal(n / 10);
    }
  }

  /** What digits are worth, zeros in front or not: the first one by its place, and then the others. */
  lemma {:induction false} FirstDigitCounts(c: char, s: string)
    requires IsDigit(c) && AllDigits(s)
    ensures DecimalValue("") == 0
    ensures DecimalValue([c] + s) == (c as int - '0' as int) * Power(10, |s|) + DecimalValue(s)
  {
    var t := [c] + s;
    if s == "" {
      assert t[..0] == "";
    } else {
      var init := s[..|s| - 1];
      FirstDigitCounts(c, init);
      assert t[..|t| - 1] == [c] + init && t[|t| - 1] == s[|s| - 1];
    }
  }

  /**
   `s` is the decimal numeral of `n`, by its characters: digits that are worth what their place says, enough
   of them, and no zero in front.
   */
  ghost predicate IsNumeral(s: string, n: nat) {
    && s != [] && (|s| > 1 ==> s[0] != '0') && n < Power(10, |s|)
    && (forall i :: 0 <= i < |s| ==> s[i] as int - '0' as int == n / Power(10, |s| - 1 - i) % 10)
  }

  /** What is printed is the numeral. */
  lemma {:induction false} DecimalIsNumeral(n: nat)
    ensures IsNumeral(Decimal(n), n)
    ensures n < 10 ==> |Decimal(n)| == 1
  {
    var s := Decimal(n);
    if n < 10 {
      assert Power(10, 0) == 1 && Power(10, 1) == 10;
    } else {
      var init := Decimal(n / 10);
      DecimalIsNumeral(n / 10);
      assert s == init + [Digit(n % 10)];
      forall i | 0 <= i < |s| ensures s[i] as int - '0' as int == n / Power(10, |s| - 1 - i) % 10 {
        if i == |s| - 1 { LastDigit(n, 10); } else { HigherDigit(n, 10, |s| - 1 - i); }
      }
      assert Power(10, |s|) == 10 * Power(10, |init|);
      assert |init| == 1 ==> init[0] != '0' by { assert Power(10, 0) == 1; }
    }
  }

  lemma {:induction false} NumeralLength(s: string, n: nat)
    requires IsNumeral(s, n) && |s| > 1
    ensures n >= Power(10, |s| - 1)
  {
    assert s[0] as int - '0' as int == n / Power(10, |s| - 1) % 10;
  }

  /** A number has one numeral. */
  lemma {:induction false} NumeralUnique(s: string, t: string, n: nat)
    requires IsNumeral(s, n) && IsNumeral(t, n)
    ensures s == t
  {
    if |s| < |t| {
      NumeralLength(t, n);
      PowerGrows(10, |s|, |t| - 1);
    } else if |t| < |s| {
      NumeralLength(s, n);
      PowerGrows(10, |t|, |s| - 1);
    } else {
      assert forall i :: 0 <= i < |s| ==> s[i] as int == t[i] as int;
    }
  }
}
