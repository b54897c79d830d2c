/**
 Framing and hashing around the cryptographic primitives, which are functions with the one law each use
 needs. `reliable` assumes that the random source never fails.
 */
module Crypto {
  import opened Wrappers

  const NONCE_LEN: nat := 12
  const SALT_LEN: nat := 32
  const HASH_LEN: nat := 32

  /** AES-256-GCM, HKDF-SHA256 of the master key and a path, and Argon2id of a password and a salt. */
  datatype Primitives = Primitives(
    seal: (bytes, bytes, bytes) -> bytes,
    unseal: (bytes, bytes, bytes) -> Option<bytes>,
    derive: string -> bytes,
    argon: (bytes, bytes) -> bytes)
  {
    /** What was sealed opens again under the same key and nonce. */
    ghost predicate OpensSealed() {
      forall key, nonce, plain :: unseal(key, nonce, seal(key, nonce, plain)) == Some(plain)
    }

    ghost predicate HashLength() {
      forall password, salt :: |argon(password, salt)| == HASH_LEN
    }

    /** No two of these passwords collide, whatever the salt. */
    ghost predicate CollisionFree(passwords: set<bytes>) {
      forall p, q, salt :: p in passwords && q in passwords && argon(p, salt) == argon(q, salt) ==> p == q
    }
  }

  // ---- buffers ----

  /** copy(dst[at:], src) for a source that fits. */
  method Copy(dst: array<byte>, at: nat, src: bytes)
    requires at + |src| <= dst.Length
    modifies dst
    ensures dst[..] == old(dst[..at]) + src + old(dst[at + |src|..])
  {
    var i := 0;
    while i < |src|
      invariant i <= |src|
      invariant dst[..at] == old(dst[..at])
      invariant dst[at..at + i] == src[..i]
      invariant dst[at + |src|..] == old(dst[at + |src|..])
    {
      dst[at + i] := src[i];
      assert dst[at..at + i + 1] == dst[at..at + i] + [src[i]];
      i := i + 1;
    }
    assert dst[..] == dst[..at] + dst[at..at + |src|] + dst[at + |src|..];
  }

  method ZeroBytes(b: array<byte>)
    modifies b
    ensures forall i :: 0 <= i < b.Length ==> b[i] == 0
  {
    var i := 0;
    while i < b.Length
      invariant i <= b.Length
      invariant forall k :: 0 <= k < i ==> b[k] == 0
    {
      b[i] := 0;
      i := i + 1;
    }
  }

  /** nonce || ciphertext in one buffer. */
  method Concatenate(first: bytes, second: bytes) returns (joined: bytes)
    ensures joined == first + second
  {
    var buffer := new byte[|first| + |second|](_ => 0);
    Copy(buffer, 0, first);
    Copy(buffer, |first|, second);
    joined := buffer[..];
  }

  /** A comparison that looks at every byte: the accumulated differences are zero iff the strings are equal. */
  method Subtle32Equal(a: bytes, b: bytes) returns (equal: bool)
    ensures equal <==> a == b
  {
    if |a| != |b| {
      return false;
    }
    var diff: byte := 0;
    var i := 0;
    while i < |a|
      invariant i <= |a|
      invariant diff == 0 <==> a[..i] == b[..i]
    {
      DiffStep(diff, a[i], b[i]);
      assert a[..i + 1] == a[..i] + [a[i]] && b[..i + 1] == b[..i] + [b[i]];
      diff := diff | (a[i] ^ b[i]);
      i := i + 1;
    }
    assert a[..i] == a && b[..i] == b;
    return diff == 0;
  }

  lemma {:induction false} DiffStep(diff: byte, x: byte, y: byte)
    ensures diff | (x ^ y) == 0 <==> diff == 0 && x == y
  {
  }

  // ---- sealed frames ----

  function DecryptFrame(p: Primitives, key: bytes, data: bytes): Result<bytes> {
    if |data| < NONCE_LEN then Err(TooShort)
    else
      match p.unseal(key, data[..NONCE_LEN], data[NONCE_LEN..])
      case None => Err(OpenFailed)
      case Some(plain) => Ok(plain)
  }

  /** `data` is a nonce followed by the plaintext sealed under that nonce. */
  predicate IsFrame(p: Primitives, key: bytes, data: bytes, plain: bytes) {
    |data| >= 12 && data[12..] == p.seal(key, data[..12], plain)
  }

  lemma {:induction false} FrameOpens(p: Primitives, key: bytes, data: bytes, plain: bytes)
    requires p.OpensSealed() && IsFrame(p, key, data, plain)
    ensures DecryptFrame(p, key, data) == Ok(plain)
  {
  }

  // ---- password hashes ----

  /** The stored form of a password: salt || hash. */
  function HashLayout(p: Primitives, password: bytes, salt: bytes): bytes {
    salt + p.argon(password, salt)
  }

  function HashMatches(p: Primitives, password: bytes, stored: bytes): bool {
    |stored| >= SALT_LEN + HASH_LEN && p.argon(password, stored[..SALT_LEN]) == stored[SALT_LEN..]
  }

  /** A stored hash accepts the password it was made from, and no other that does not collide with it. */
  lemma {:induction false} HashAcceptsOnlyIts(p: Primitives, passwords: set<bytes>, password: bytes, other: bytes,
                                              salt: bytes)
    requires p.HashLength() && |salt| == SALT_LEN
    ensures HashMatches(p, password, HashLayout(p, password, salt))
    ensures p.CollisionFree(passwords) && password in passwords && other in passwords ==>
              (HashMatches(p, other, HashLayout(p, password, salt)) <==> other == password)
  {
    var stored := HashLayout(p, password, salt);
    assert stored[..SALT_LEN] == salt && stored[SALT_LEN..] == p.argon(password, salt);
  }

  class Crypto {
    const prims: Primitives
    const reliable: bool

    constructor (prims: Primitives, reliable: bool)
      ensures this.prims == prims && this.reliable == reliable
    {
      this.prims := prims;
      this.reliable := reliable;
    }

    /** rand.Read. */
    method Random(n: nat) returns (r: Result<bytes>)
      ensures r.Ok? ==> |r.value| == n
      ensures r.Err? ==> !reliable && r.error == NoEntropy
    {
      var failed: bool := *;
      if failed && !reliable {
        return Err(NoEntropy);
      }
      assert |seq(n, _ => 0 as byte)| == n;
      var b: bytes :| |b| == n;
      return Ok(b);
    }

    /** Seals under a fresh nonce and a given key. */
    method Seal(key: bytes, plain: bytes) returns (r: Result<bytes>)
      ensures r.Ok? ==> IsFrame(prims, key, r.value, plain)
      ensures r.Err? ==> !reliable && r.error == NoEntropy
    {
      var nonce := Random(NONCE_LEN);
      if nonce.Err? {
        return Err(nonce.error);
      }
      var ciphertext := prims.seal(key, nonce.value, plain);
      var out := Concatenate(nonce.value, ciphertext);
      return Ok(out);
    }

    /** Seals under the key derived from `path`; the derived key is wiped afterwards. */
    method Encrypt(path: string, plain: bytes) returns (r: Result<bytes>)
      ensures r.Ok? ==> IsFrame(prims, prims.derive(path), r.value, plain)
      ensures r.Err? ==> !reliable && r.error == NoEntropy
    {
      var derived := prims.derive(path);
      var key := new byte[|derived|](i requires 0 <= i < |derived| => derived[i]);
      assert key[..] == derived;
      r := Seal(key[..], plain);
      ZeroBytes(key);
    }

    method Decrypt(path: string, data: bytes) returns (r: Result<bytes>)
      ensures r == DecryptFrame(prims, prims.derive(path), data)
      ensures |data| < 12 <==> r == Err(TooShort)
      ensures forall plain :: r == Ok(plain) <==>
                |data| >= 12 && prims.unseal(prims.derive(path), data[..12], data[12..]) == Some(plain)
    {
      if |data| < NONCE_LEN {
        return Err(TooShort);
      }
      var derived := prims.derive(path);
      var key := new byte[|derived|](i requires 0 <= i < |derived| => derived[i]);
      assert key[..] == derived;
      var opened' := prims.unseal(key[..], data[..NONCE_LEN], data[NONCE_LEN..]);
      ZeroBytes(key);
      match opened'
      case None => return Err(OpenFailed);
      case Some(plain) => return Ok(plain);
    }

    /** Hashes under a fresh salt. */
    method HashArgon2id(password: bytes) returns (r: Result<bytes>)
      requires prims.HashLength()
      ensures r.Ok? ==> |r.value| == 64 && r.value[32..] == prims.argon(password, r.value[..32])
      ensures r.Ok? ==> r.value == HashLayout(prims, password, r.value[..32])
      ensures r.Err? ==> !reliable && r.error == NoEntropy
    {
      var salt := Random(SALT_LEN);
      if salt.Err? {
        return Err(salt.error);
      }
      var digest := prims.argon(password, salt.value);
      var hash := new byte[|digest|](i requires 0 <= i < |digest| => digest[i]);
      assert hash[..] == digest;
      var out := Concatenate(salt.value, hash[..]);
      ZeroBytes(hash);
      assert out[..SALT_LEN] == salt.value;
      return Ok(out);
    }

    method VerifyArgon2id(password: bytes, stored: bytes) returns (ok: bool)
      ensures ok == HashMatches(prims, password, stored)
      ensures ok <==> |stored| >= 64 && prims.argon(password, stored[..32]) == stored[32..]
    {
      if |stored| < SALT_LEN + HASH_LEN {
        return false;
      }
      var actual := prims.argon(password, stored[..SALT_LEN]);
      ok := Subtle32Equal(actual, stored[SALT_LEN..]);
    }
  }
}
