/**
 Transit keys: a named keyring that grows by rotation, and ciphertexts that name the key version they
 were made with. Runs of key operations are kept apart from the store that holds the rings.
 */
module Transit {
  import opened Wrappers
  import opened Text
  import opened Json
  import opened Crypto
  import Base64

  const KEY_LEN: nat := 32

  datatype KeyVersion = KeyVersion(version: nat, key: bytes, createdAt: Time)

  datatype Keyring = Keyring(name: string, currentVersion: nat, versions: seq<KeyVersion>)

  type Rings = map<string, Keyring>

  /** The linear search of keyVersion: the first entry with that number. */
  function KeyAt(versions: seq<KeyVersion>, v: nat): Option<KeyVersion> {
    if versions == [] then None
    else if versions[0].version == v then Some(versions[0])
    else KeyAt(versions[1..], v)
  }

  /** The versions of a ring are 1..currentVersion in order. */
  ghost predicate Numbered(ring: Keyring) {
    && ring.currentVersion == |ring.versions| >= 1
    && forall i :: 0 <= i < |ring.versions| ==> ring.versions[i].version == i + 1 && |ring.versions[i].key| == KEY_LEN
  }

  /** A numbered ring that carries the name JSON makes of the one it is stored under. */
  ghost predicate InOrder(j: JsonView, name: string, ring: Keyring) {
    ring.name == j.text(name) && Numbered(ring)
  }

  ghost predicate AllInOrder(j: JsonView, rings: Rings) {
    forall name :: name in rings ==> InOrder(j, name, rings[name])
  }

  lemma {:induction false} KeyAtSkips(versions: seq<KeyVersion>, base: nat, v: nat)
    requires forall i :: 0 <= i < |versions| ==> versions[i].version == base + i + 1
    ensures KeyAt(versions, v) == if base < v <= base + |versions| then Some(versions[v - base - 1]) else None
  {
    if versions != [] && versions[0].version != v {
      KeyAtSkips(versions[1..], base + 1, v);
    }
  }

  /** In a numbered ring the search is indexing, and fails exactly outside 1..currentVersion. */
  lemma {:induction false} KeyAtIsIndex(ring: Keyring, v: nat)
    requires Numbered(ring)
    ensures KeyAt(ring.versions, v) == if 1 <= v <= ring.currentVersion then Some(ring.versions[v - 1]) else None
    ensures KeyAt(ring.versions, ring.currentVersion).Some?
  {
    KeyAtSkips(ring.versions, 0, v);
    KeyAtSkips(ring.versions, 0, ring.currentVersion);
  }

  // ---- the printed ciphertext ----

  function Print(version: nat, data: bytes): string {
    "vault:v" + Decimal(version) + ":" + Base64.Encode(data)
  }

  function LeadingDigits(s: string): (d: string)
    ensures AllDigits(d)
  {
    if s == "" || !IsDigit(s[0]) then "" else [s[0]] + LeadingDigits(s[1..])
  }

  /** Sscanf(s, "v%d"): a `v`, then at least one digit; what follows the digits is ignored. */
  function ScanVersion(s: string): Option<nat> {
    if s == "" || s[0] != 'v' || LeadingDigits(s[1..]) == "" then None
    else Some(DecimalValue(LeadingDigits(s[1..])))
  }

  function ParseCiphertext(ct: string): Result<(nat, string)> {
    var parts := SplitN(ct, ':', 3);
    if |parts| != 3 || parts[0] != "vault" then Err(BadCiphertextFormat)
    else
      match ScanVersion(parts[1])
      case None => Err(BadCiphertextFormat)
      case Some(version) => Ok((version, parts[2]))
  }

  lemma {:induction false} LeadingDigitsAll(s: string)
    requires AllDigits(s)
    ensures LeadingDigits(s) == s
  {
    if s != "" {
      LeadingDigitsAll(s[1..]);
      assert s == [s[0]] + s[1..];
    }
  }

  lemma {:induction false} ScanPrinted(version: nat)
    ensures ScanVersion("v" + Decimal(version)) == Some(version)
  {
    var s := "v" + Decimal(version);
    assert s[1..] == Decimal(version);
    LeadingDigitsAll(Decimal(version));
    DecimalRoundTrip(version);
  }

  /** Three pieces come apart where they were joined: the first two hold no colon, the last may. */
  lemma {:induction false} SplitThree(a: string, b: string, c: string)
    requires ':' !in a && ':' !in b
    ensures SplitN(a + ":" + (b + ":" + c), ':', 3) == [a, b, c]
  {
    SplitFirst(a, ':', b + ":" + c);
    SplitFirst(b, ':', c);
    assert SplitN(c, ':', 1) == [c];
  }

  /** The parser reads back what the printer printed. */
  lemma {:induction false} ParsePrinted(version: nat, data: bytes)
    ensures ParseCiphertext(Print(version, data)) == Ok((version, Base64.Encode(data)))
  {
    var b, c := "v" + Decimal(version), Base64.Encode(data);
    assert forall i :: 0 <= i < |Decimal(version)| ==> IsDigit(Decimal(version)[i]);
    assert Print(version, data) == "vault" + ":" + (b + ":" + c);
    SplitThree("vault", b, c);
    ScanPrinted(version);
  }

  /** The text of a ciphertext: `vault:v`, the numeral of the version, a colon, and the data. */
  ghost predicate IsVaultText(ct: string, version: nat) {
    exists d, data :: IsNumeral(d, version) && ct == "vault:v" + d + ":" + Base64.Encode(data)
  }

  lemma {:induction false} PrintedText(version: nat, data: bytes)
    ensures IsVaultText(Print(version, data), version)
  {
    DecimalIsNumeral(version);
  }

  lemma {:induction false} PutInFront(c: char, a: string, b: string, tail: string, s: string)
    requires tail == a + b && s == [c] + tail
    ensures s == [c] + a + b
  {
  }

  lemma {:induction false} LeadingDigitsMeans(s: string)
    ensures var d := LeadingDigits(s);
            && |d| <= |s| && s == d + s[|d|..] && (|d| < |s| ==> !IsDigit(s[|d|]))
  {
    if s != "" && IsDigit(s[0]) {
      var tail := s[1..];
      LeadingDigitsMeans(tail);
      var d := LeadingDigits(tail);
      assert LeadingDigits(s) == [s[0]] + d;
      assert s[|d| + 1..] == tail[|d|..];
      PutInFront(s[0], d, tail[|d|..], tail, s);
    }
  }

  lemma {:induction false} LeadingDigitsOf(d: string, junk: string)
    requires AllDigits(d) && (junk == "" || !IsDigit(junk[0]))
    ensures LeadingDigits(d + junk) == d
  {
    if d != "" {
      LeadingDigitsOf(d[1..], junk);
      assert (d + junk)[1..] == d[1..] + junk;
      assert d == [d[0]] + d[1..];
    } else {
      assert d + junk == junk;
    }
  }

  /** `ct` is `vault`, a second piece of `v`, digits and anything without a colon, and a third piece. */
  ghost predicate HasPieces(ct: string, d: string, junk: string, rest: string) {
    && ct == "vault" + ":" + ("v" + d + junk + ":" + rest)
    && d != "" && AllDigits(d) && ':' !in junk && (junk == "" || !IsDigit(junk[0]))
  }

  /** Exactly such texts are accepted, with the value of the digits and the third piece; all others are refused. */
  lemma {:induction false} ParsesIff(ct: string)
    ensures match ParseCiphertext(ct)
            case Ok((version, rest)) => exists d, junk :: HasPieces(ct, d, junk, rest) && version == DecimalValue(d)
            case Err(e) => e == BadCiphertextFormat && !exists d, junk, rest :: HasPieces(ct, d, junk, rest)
  {
    forall d, junk, rest | HasPieces(ct, d, junk, rest) ensures ParseCiphertext(ct) == Ok((DecimalValue(d), rest)) {
      PiecesParse(ct, d, junk, rest);
    }
    if ParseCiphertext(ct).Ok? { ParsedHasPieces(ct); }
  }

  lemma {:induction false} ScansPiece(d: string, junk: string, second: string)
    requires second == "v" + d + junk
    requires d != "" && AllDigits(d) && ':' !in junk && (junk == "" || !IsDigit(junk[0]))
    ensures ':' !in second && ScanVersion(second) == Some(DecimalValue(d))
  {
    forall i | 0 <= i < |d| ensures d[i] != ':' { assert IsDigit(d[i]); }
    assert second[1..] == d + junk;
    LeadingDigitsOf(d, junk);
  }

  lemma {:induction false} PiecesParse(ct: string, d: string, junk: string, rest: string)
    requires HasPieces(ct, d, junk, rest)
    ensures ParseCiphertext(ct) == Ok((DecimalValue(d), rest))
  {
    var second := "v" + d + junk;
    ScansPiece(d, junk, second);
    SplitThree("vault", second, rest);
  }

  lemma {:induction false} ParsedHasPieces(ct: string)
    requires ParseCiphertext(ct).Ok?
    ensures exists d, junk ::
              HasPieces(ct, d, junk, ParseCiphertext(ct).value.1) && ParseCiphertext(ct).value.0 == DecimalValue(d)
  {
    var parts := SplitN(ct, ':', 3);
    LimitedPieces(ct, ':', 3);
    JoinThree(parts);
    var second := parts[1];
    var d := LeadingDigits(second[1..]);
    LeadingDigitsMeans(second[1..]);
    var junk := second[1..][|d|..];
    assert second == "v" + d + junk by { assert second == [second[0]] + second[1..]; }
    assert ':' !in junk by { assert forall c :: c in junk ==> c in second; }
    assert HasPieces(ct, d, junk, parts[2]);
  }

  lemma {:induction false} JoinThree(parts: seq<string>)
    requires |parts| == 3
    ensures Join(parts, ':') == parts[0] + ":" + (parts[1] + ":" + parts[2])
  {
    assert parts[1..] == [parts[1], parts[2]] && parts[1..][1..] == [parts[2]];
    assert Join(parts[1..], ':') == parts[1] + [':'] + Join(parts[1..][1..], ':');
  }

  // ---- encrypting and decrypting under a ring ----

  /** AES takes keys of 16, 24 or 32 bytes. */
  predicate ValidKeyLength(key: bytes) {
    |key| == 16 || |key| == 24 || |key| == 32
  }

  function OpenWith(p: Primitives, key: bytes, data: bytes): Result<bytes> {
    if ValidKeyLength(key) then DecryptFrame(p, key, data) else Err(BadKeyLength)
  }

  function Decrypt(p: Primitives, rings: Rings, name: string, ct: string): Result<bytes> {
    match ParseCiphertext(ct)
    case Err(e) => Err(e)
    case Ok((version, encoded)) =>
      if name !in rings then Err(NotFound)
      else
        match KeyAt(rings[name].versions, version)
        case None => Err(KeyVersionNotFound)
        case Some(kv) =>
          match Base64.Decode(encoded)
          case None => Err(BadEncoding)
          case Some(data) => OpenWith(p, kv.key, data)
  }

  /** What Encrypt may return: the plaintext sealed under the current key, whatever the nonce. */
  ghost predicate IsCiphertext(p: Primitives, ring: Keyring, plain: bytes, ct: string) {
    exists data :: IsCiphertextOf(p, ring, plain, ct, data)
  }

  ghost predicate IsCiphertextOf(p: Primitives, ring: Keyring, plain: bytes, ct: string, data: bytes) {
    var kv := KeyAt(ring.versions, ring.currentVersion);
    kv.Some? && IsFrame(p, kv.value.key, data, plain) && ct == Print(kv.value.version, data)
  }

  /** A ring that still has the versions of an older ring opens what the older ring sealed. */
  lemma {:induction false} LaterRingDecrypts(p: Primitives, rings: Rings, name: string, ring: Keyring, plain: bytes,
                                             ct: string)
    requires p.OpensSealed() && Numbered(ring) && IsCiphertext(p, ring, plain, ct)
    requires name in rings && Numbered(rings[name]) && ring.versions <= rings[name].versions
    ensures Decrypt(p, rings, name, ct) == Ok(plain)
  {
    var data :| IsCiphertextOf(p, ring, plain, ct, data);
    var v := ring.currentVersion;
    KeyAtIsIndex(ring, v);
    KeyAtIsIndex(rings[name], v);
    ParsePrinted(v, data);
    Base64.RoundTrip(data);
    FrameOpens(p, ring.versions[v - 1].key, data, plain);
  }

  /**
   Every answer of Decrypt: a text that does not have its pieces, an unknown name, a version that the ring
   does not have, data that is not base64 and data shorter than a nonce are errors of their own, in this
   order; the rest is opened with the key of the version.
   */
  lemma {:induction false} DecryptMeans(p: Primitives, rings: Rings, name: string, ct: string, d: string, junk: string,
                                        rest: string)
    requires name in rings ==> Numbered(rings[name])
    ensures (forall x, y, z :: !HasPieces(ct, x, y, z)) ==> Decrypt(p, rings, name, ct) == Err(BadCiphertextFormat)
    ensures HasPieces(ct, d, junk, rest) ==>
              Decrypt(p, rings, name, ct) ==
                if name !in rings then Err(NotFound)
                else if DecimalValue(d) < 1 || DecimalValue(d) > rings[name].currentVersion then Err(KeyVersionNotFound)
                else if !Base64.WellFormed(Base64.WithoutLineBreaks(rest)) then Err(BadEncoding)
                else OpenedBy(p, rings[name].versions[DecimalValue(d) - 1].key, Base64.Decode(rest))
  {
    ParsesIff(ct);
    if HasPieces(ct, d, junk, rest) {
      PiecesParse(ct, d, junk, rest);
      if name in rings { KeyAtIsIndex(rings[name], DecimalValue(d)); }
      Base64.DecodesIff(rest);
    }
  }

  /** The bytes of a text that is base64, opened under a key. */
  function OpenedBy(p: Primitives, key: bytes, data: Option<bytes>): Result<bytes> {
    if data.None? then Err(BadEncoding)
    else if |data.value| < 12 then Err(TooShort)
    else
      match p.unseal(key, data.value[..12], data.value[12..])
      case None => Err(OpenFailed)
      case Some(plain) => Ok(plain)
  }

  // ---- runs of key operations ----

  /** One call, with the key it drew and the faults it met. Encrypt, Decrypt and Info change nothing. */
  datatype Action =
    | CreateKey(name: string, key: bytes, now: Time, readFails: bool, writeFails: bool)
    | Rotate(name: string, key: bytes, now: Time, readFails: bool, writeFails: bool)

  /** What a ring becomes when it is written as JSON and read back. */
  function StoredRing(j: JsonView, ring: Keyring): Keyring {
    ring.(name := j.text(ring.name))
  }

  function NewRing(name: string, key: bytes, now: Time): Keyring {
    Keyring(name, 1, [KeyVersion(1, key, now)])
  }

  function RotatedRing(ring: Keyring, key: bytes, now: Time): Keyring {
    ring.(currentVersion := ring.currentVersion + 1,
          versions := ring.versions + [KeyVersion(ring.currentVersion + 1, key, now)])
  }

  function Save(rings: Rings, j: JsonView, ring: Keyring): Rings {
    rings[ring.name := StoredRing(j, ring)]
  }

  /** CreateKey refuses when it could load a ring; on any load error it goes on and writes a new one. */
  function Apply(rings: Rings, j: JsonView, a: Action): Rings {
    if a.writeFails then rings
    else
      match a
      case CreateKey(name, key, now, readFails, _) =>
        if name in rings && !readFails then rings else Save(rings, j, NewRing(name, key, now))
      case Rotate(name, key, now, readFails, _) =>
        if name in rings && !readFails then Save(rings, j, RotatedRing(rings[name], key, now)) else rings
  }

  function Run(rings: Rings, j: JsonView, actions: seq<Action>): Rings
    decreases |actions|
  {
    if actions == [] then rings else Run(Apply(rings, j, actions[0]), j, actions[1..])
  }

  /** A CreateKey whose load of the existing ring failed writes a new ring over it. */
  predicate Clobbers(a: Action, name: string) {
    a.CreateKey? && a.name == name && a.readFails && !a.writeFails
  }

  /** A rotation of another key whose name JSON turns into this one. */
  predicate Misfiles(j: JsonView, a: Action, name: string) {
    a.Rotate? && a.name != name && j.text(a.name) == name && !a.readFails && !a.writeFails
  }

  /** The two calls that replace a ring. Everything else, on whatever names, leaves its versions in place. */
  predicate Harms(j: JsonView, a: Action, name: string) {
    Clobbers(a, name) || Misfiles(j, a, name)
  }

  /** `later` still has every version of `earlier`, number and material, in place. */
  predicate Extends(earlier: Keyring, later: Keyring) {
    earlier.versions <= later.versions
  }

  lemma {:induction false} ApplyInOrder(rings: Rings, j: JsonView, a: Action)
    requires AllInOrder(j, rings) && |a.key| == KEY_LEN
    ensures AllInOrder(j, Apply(rings, j, a))
  {
    var rings' := Apply(rings, j, a);
    forall n | n in rings' ensures InOrder(j, n, rings'[n]) {
      if n in rings { assert InOrder(j, n, rings[n]); }
      if a.name in rings { assert InOrder(j, a.name, rings[a.name]); }
    }
  }

  /** Every call keeps every ring in order, and keeps the versions of a ring it does not harm. */
  lemma {:induction false} ApplyKeeps(rings: Rings, j: JsonView, a: Action, name: string)
    requires AllInOrder(j, rings) && |a.key| == KEY_LEN
    ensures AllInOrder(j, Apply(rings, j, a))
    ensures name in rings ==> name in Apply(rings, j, a)
    ensures name in rings && !Harms(j, a, name) ==> Extends(rings[name], Apply(rings, j, a)[name])
  {
    ApplyInOrder(rings, j, a);
    if a.name in rings { assert InOrder(j, a.name, rings[a.name]); }
  }

  lemma {:induction false} RunKeeps(rings: Rings, j: JsonView, actions: seq<Action>, name: string)
    requires AllInOrder(j, rings)
    requires forall i :: 0 <= i < |actions| ==> |actions[i].key| == KEY_LEN
    ensures AllInOrder(j, Run(rings, j, actions))
    ensures name in rings ==> name in Run(rings, j, actions)
    ensures name in rings && (forall i :: 0 <= i < |actions| ==> !Harms(j, actions[i], name)) ==>
              Extends(rings[name], Run(rings, j, actions)[name])
    decreases |actions|
  {
    if actions != [] {
      ApplyKeeps(rings, j, actions[0], name);
      RunKeeps(Apply(rings, j, actions[0]), j, actions[1..], name);
    }
  }

  /** Every ring that any run of calls on any names produces is numbered 1..currentVersion, and so has a current key. */
  lemma {:induction false} RunNumbered(j: JsonView, actions: seq<Action>, name: string)
    requires forall i :: 0 <= i < |actions| ==> |actions[i].key| == KEY_LEN
    requires name in Run(map[], j, actions)
    ensures var ring := Run(map[], j, actions)[name];
            Numbered(ring) && ring.name == j.text(name) && KeyAt(ring.versions, ring.currentVersion).Some?
  {
    RunKeeps(map[], j, actions, name);
    assert InOrder(j, name, Run(map[], j, actions)[name]);
    KeyAtIsIndex(Run(map[], j, actions)[name], 0);
  }

  /**
   A ciphertext opens to its plaintext after any further run of key operations on any names: rotations of
   its key, refused creations, failed calls, and everything on other keys but the rotation of one that JSON
   renames to this one.
   */
  lemma {:induction false} TransitRoundTrip(p: Primitives, j: JsonView, rings: Rings, name: string, plain: bytes,
                                            ct: string, actions: seq<Action>)
    requires p.OpensSealed() && AllInOrder(j, rings) && name in rings
    requires IsCiphertext(p, rings[name], plain, ct)
    requires forall i :: 0 <= i < |actions| ==> |actions[i].key| == KEY_LEN && !Harms(j, actions[i], name)
    ensures Decrypt(p, Run(rings, j, actions), name, ct) == Ok(plain)
  {
    RunKeeps(rings, j, actions, name);
    assert InOrder(j, name, rings[name]);
    assert InOrder(j, name, Run(rings, j, actions)[name]);
    LaterRingDecrypts(p, Run(rings, j, actions), name, rings[name], plain, ct);
  }

  // ---- the two calls that lose keys ----

  /** A rotation puts the rotated ring where JSON names it, and touches nothing else. */
  lemma {:induction false} RotationLands(j: JsonView, rings: Rings, a: Action, other: string)
    requires AllInOrder(j, rings) && a.Rotate? && a.name in rings && !a.readFails && !a.writeFails
    ensures var q := j.text(a.name);
            var rings' := Apply(rings, j, a);
            && q in rings' && rings'[q] == RotatedRing(rings[a.name], a.key, a.now).(name := j.text(q))
            && (other != q ==> (other in rings <==> other in rings'))
            && (other != q && other in rings ==> rings'[other] == rings[other])
  {
    assert InOrder(j, a.name, rings[a.name]);
  }

  lemma {:induction false} PrefixOfOneMore(part: seq<KeyVersion>, all: seq<KeyVersion>, last: KeyVersion)
    ensures part <= all + [last] ==> part <= all || last in part
    ensures part <= all ==> part <= all + [last]
  {
    if part <= all + [last] {
      if |part| <= |all| {
        assert part == (all + [last])[..|part|] == all[..|part|];
      } else {
        assert part[|all|] == (all + [last])[|all|] == last;
      }
    }
    assert part <= all ==> part <= all + [last];
  }

  /**
   Exactly two calls take versions away from a stored ring: a CreateKey of it that met a load error, and a
   rotation of another stored key that JSON renames to it, unless that key still has all these versions. The
   key that the call has drawn is new to the ring.
   */
  lemma {:induction false} VersionsKeptIff(j: JsonView, rings: Rings, a: Action, name: string)
    requires AllInOrder(j, rings) && |a.key| == KEY_LEN && name in rings
    requires forall i :: 0 <= i < |rings[name].versions| ==> rings[name].versions[i].key != a.key
    ensures Extends(rings[name], Apply(rings, j, a)[name]) <==>
              && !Clobbers(a, name)
              && !(a.name in rings && Misfiles(j, a, name) && !Extends(rings[name], rings[a.name]))
  {
    assert InOrder(j, name, rings[name]);
    if Clobbers(a, name) {
      assert Apply(rings, j, a)[name].versions[0] == KeyVersion(1, a.key, a.now);
    } else if a.name in rings && Misfiles(j, a, name) {
      RotationLands(j, rings, a, name);
      var drawn := KeyVersion(rings[a.name].currentVersion + 1, a.key, a.now);
      assert Apply(rings, j, a)[name].versions == rings[a.name].versions + [drawn];
      PrefixOfOneMore(rings[name].versions, rings[a.name].versions, drawn);
    } else {
      ApplyKeeps(rings, j, a, name);
    }
  }

  /** After a clobbering CreateKey the old ciphertexts are opened with the new key, so they need not open. */
  lemma {:induction false} ClobberedKeyOpensWithNew(p: Primitives, j: JsonView, rings: Rings, a: Action, data: bytes)
    requires |a.key| == KEY_LEN && Clobbers(a, a.name)
    ensures Decrypt(p, Apply(rings, j, a), a.name, Print(1, data)) == DecryptFrame(p, a.key, data)
    ensures forall v: nat :: v > 1 ==> Decrypt(p, Apply(rings, j, a), a.name, Print(v, data)) == Err(KeyVersionNotFound)
  {
    var rings' := Apply(rings, j, a);
    assert Numbered(rings'[a.name]);
    OpensByIndex(p, rings', a.name, 1, data);
    forall v: nat | v > 1 ensures Decrypt(p, rings', a.name, Print(v, data)) == Err(KeyVersionNotFound) {
      OpensByIndex(p, rings', a.name, v, data);
    }
  }

  /** What a printed ciphertext of version v opens with, in a numbered ring. */
  lemma {:induction false} OpensByIndex(p: Primitives, rings: Rings, name: string, v: nat, data: bytes)
    requires name in rings && Numbered(rings[name])
    ensures Decrypt(p, rings, name, Print(v, data)) ==
              if 1 <= v <= rings[name].currentVersion then DecryptFrame(p, rings[name].versions[v - 1].key, data)
              else Err(KeyVersionNotFound)
  {
    Base64.RoundTrip(data);
    ParsePrinted(v, data);
    KeyAtIsIndex(rings[name], v);
  }

  /**
   Creating and rotating a key whose name JSON turns into that of a stored key replaces the stored ring: it
   has the two keys of the other one and no key of its own, and its ciphertexts are opened with those.
   */
  lemma {:induction false} RotationTakesOver(p: Primitives, j: JsonView, rings: Rings, name: string, first: bytes,
                                             second: bytes, now: Time, data: bytes)
    requires AllInOrder(j, rings) && name !in rings && !j.Faithful(name) && |first| == |second| == KEY_LEN
    ensures var q := j.text(name);
            var created := Apply(rings, j, CreateKey(name, first, now, false, false));
            var rotated := Apply(created, j, Rotate(name, second, now, false, false));
            && (q in rings <==> q in created) && (q in rings ==> created[q] == rings[q])
            && q in rotated
            && rotated[q] == Keyring(j.text(q), 2, [KeyVersion(1, first, now), KeyVersion(2, second, now)])
            && rotated[name] == created[name]
            && Decrypt(p, rotated, q, Print(1, data)) == DecryptFrame(p, first, data)
            && Decrypt(p, rotated, q, Print(2, data)) == DecryptFrame(p, second, data)
            && (forall v: nat :: v > 2 ==> Decrypt(p, rotated, q, Print(v, data)) == Err(KeyVersionNotFound))
  {
    var q := j.text(name);
    var created := Apply(rings, j, CreateKey(name, first, now, false, false));
    var rotated := Apply(created, j, Rotate(name, second, now, false, false));
    assert created[name] == Keyring(q, 1, [KeyVersion(1, first, now)]);
    assert rotated[q] == Keyring(j.text(q), 2, [KeyVersion(1, first, now), KeyVersion(2, second, now)]);
    OpensByIndex(p, rotated, q, 1, data);
    OpensByIndex(p, rotated, q, 2, data);
    forall v: nat | v > 2 ensures Decrypt(p, rotated, q, Print(v, data)) == Err(KeyVersionNotFound) {
      OpensByIndex(p, rotated, q, v, data);
    }
  }

  /** And so does every further rotation: it takes the version away that the one before has put there. */
  lemma {:induction false} NextRotationTakesOver(j: JsonView, rings: Rings, name: string, first: bytes, second: bytes,
                                                 third: bytes, now: Time)
    requires AllInOrder(j, rings) && name !in rings && !j.Faithful(name)
    requires |first| == |second| == |third| == KEY_LEN && second != third
    ensures var q := j.text(name);
            var created := Apply(rings, j, CreateKey(name, first, now, false, false));
            var once := Apply(created, j, Rotate(name, second, now, false, false));
            var twice := Apply(once, j, Rotate(name, third, now, false, false));
            && q in once && q in twice && !Extends(once[q], twice[q])
            && twice[q].versions == [KeyVersion(1, first, now), KeyVersion(2, third, now)]
  {
    var q := j.text(name);
    var created := Apply(rings, j, CreateKey(name, first, now, false, false));
    var once := Apply(created, j, Rotate(name, second, now, false, false));
    var twice := Apply(once, j, Rotate(name, third, now, false, false));
    assert created[name].versions == once[name].versions == [KeyVersion(1, first, now)];
    assert once[q].versions[1].key == second && twice[q].versions[1].key == third;
  }

  /**
   One such run from no keys at all: three calls succeed, and no ciphertext of the first key opens with it
   any more.
   */
  lemma {:induction false} BadNameTakesOverGoodName(p: Primitives, own: bytes, first: bytes, second: bytes, data: bytes)
    requires |own| == |first| == |second| == KEY_LEN
    ensures var actions := [CreateKey(GOOD_PATH, own, 0, false, false), CreateKey(BAD_PATH, first, 1, false, false),
                            Rotate(BAD_PATH, second, 1, false, false)];
            var rings := Run(map[], REPAIRING, actions);
            && GOOD_PATH in rings
            && rings[GOOD_PATH] == Keyring(GOOD_PATH, 2, [KeyVersion(1, first, 1), KeyVersion(2, second, 1)])
            && Decrypt(p, rings, GOOD_PATH, Print(1, data)) == DecryptFrame(p, first, data)
  {
    var a, b, c := CreateKey(GOOD_PATH, own, 0, false, false), CreateKey(BAD_PATH, first, 1, false, false),
                   Rotate(BAD_PATH, second, 1, false, false);
    BadPathIsRepaired();
    ThreeCalls(map[], REPAIRING, a, b, c);
    var rings := Apply(map[], REPAIRING, a);
    ApplyInOrder(map[], REPAIRING, a);
    assert BAD_PATH !in rings;
    RotationTakesOver(p, REPAIRING, rings, BAD_PATH, first, second, 1, data);
  }

  lemma {:induction false} ThreeCalls(rings: Rings, j: JsonView, a: Action, b: Action, c: Action)
    ensures Run(rings, j, [a, b, c]) == Apply(Apply(Apply(rings, j, a), j, b), j, c)
  {
    var one, two := Apply(rings, j, a), Apply(Apply(rings, j, a), j, b);
    assert [a, b, c][1..] == [b, c] && [b, c][1..] == [c] && [c][1..] == [];
    assert Run(rings, j, [a, b, c]) == Run(one, j, [b, c]) == Run(two, j, [c]) == Run(Apply(two, j, c), j, []);
  }

  /**
   The ring is saved under the name it carries: a rotation shows exactly when the name survives JSON.
   Otherwise the rotated ring is stored under the name that JSON makes of it.
   */
  lemma {:induction false} RotationShowsIff(j: JsonView, rings: Rings, a: Action)
    requires AllInOrder(j, rings) && a.Rotate? && a.name in rings && !a.readFails && !a.writeFails
    ensures var rings' := Apply(rings, j, a);
            && (j.Faithful(a.name) <==> rings'[a.name] == RotatedRing(rings[a.name], a.key, a.now))
            && (!j.Faithful(a.name) ==> rings'[a.name] == rings[a.name])
            && j.text(a.name) in rings'
            && rings'[j.text(a.name)].versions == RotatedRing(rings[a.name], a.key, a.now).versions
  {
    assert InOrder(j, a.name, rings[a.name]);
    RotationLands(j, rings, a, a.name);
  }
}
