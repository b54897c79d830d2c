/** One-time codes: HOTP (RFC 4226) over 30-second counters with a window of one on either side (RFC 6238). */
module Totp {
  import opened Wrappers
  import opened Json
  import opened Database
  import opened Numbers

  const STEP: int := 30
  const MAC_LEN: nat := 20
  const TOTP_ROOT := "auth/services/totp/"

  /** HMAC-SHA1 of a secret and a message. */
  type Mac = (bytes, bytes) -> bytes

  ghost predicate MacLength(mac: Mac) {
    forall secret, msg :: |mac(secret, msg)| == MAC_LEN
  }

  // ---- HOTP ----

  type uint64 = x: int | 0 <= x < 0x1_0000_0000_0000_0000

  /** The last `n` bytes of a number, big-endian. */
  function PutBytes(c: nat, n: nat): (msg: bytes)
    ensures |msg| == n
  {
    if n == 0 then [] else PutBytes(c / 256, n - 1) + [ByteOf(c % 256)]
  }

  /** binary.BigEndian.PutUint64. */
  function PutUint64(c: uint64): (msg: bytes)
    ensures |msg| == 8
  {
    PutBytes(c, 8)
  }

  lemma {:induction false} BytesByPlace(c: nat, n: nat, i: nat)
    requires i < n
    ensures PutBytes(c, n)[i] as int == c / Power(256, n - 1 - i) % 256
  {
    if i == n - 1 {
      LastDigit(c, 256);
    } else {
      BytesByPlace(c / 256, n - 1, i);
      HigherDigit(c, 256, n - 1 - i);
    }
  }

  /** The number that bytes stand for, big-endian. */
  function BigEndian(msg: bytes): nat {
    if msg == [] then 0 else BigEndian(msg[..|msg| - 1]) * 256 + msg[|msg| - 1] as int
  }

  lemma {:induction false} BytesRoundTrip(c: nat, n: nat)
    requires c < Power(256, n)
    ensures BigEndian(PutBytes(c, n)) == c
  {
    if n > 0 {
      assert c / 256 < Power(256, n - 1);
      BytesRoundTrip(c / 256, n - 1);
      assert PutBytes(c, n)[..n - 1] == PutBytes(c / 256, n - 1);
    }
  }

  /** Different counters are different messages to the MAC. */
  lemma {:induction false} CounterRoundTrip(c: uint64)
    ensures BigEndian(PutUint64(c)) == c
  {
    EightBytes();
    BytesRoundTrip(c, 8);
  }

  lemma {:induction false} EightBytes()
    ensures Power(256, 8) == 0x1_0000_0000_0000_0000
  {
    assert Power(256, 2) == 256 * Power(256, 1) == 0x1_0000;
    assert Power(256, 4) == 256 * Power(256, 3) == 0x1_0000_0000;
    assert Power(256, 6) == 256 * Power(256, 5) == 0x1_0000_0000_0000;
    assert Power(256, 8) == 256 * Power(256, 7);
  }

  function Offset(h: bytes): (o: nat)
    requires |h| == MAC_LEN
    ensures o + 3 < MAC_LEN
  {
    (h[MAC_LEN - 1] & 0x0f) as int
  }

  /** Four bytes as one number without its top bit, put together bit by bit as the program does it. */
  function Word(a: byte, b: byte, c: byte, d: byte): bv32 {
    (((a as bv32) & 0x7f) << 24) | ((b as bv32) << 16) | ((c as bv32) << 8) | (d as bv32)
  }

  /** Dynamic truncation. */
  function Truncate(h: bytes): bv32
    requires |h| == MAC_LEN
  {
    var o := Offset(h);
    Word(h[o], h[o + 1], h[o + 2], h[o + 3])
  }

  lemma {:induction false} LowNibble(x: byte)
    ensures (x & 0x0f) as int == x as int % 16
  {
    assert x & 0x0f == x % 16;
  }

  lemma {:induction false} OffsetMeans(h: bytes)
    requires |h| == 20
    ensures Offset(h) == h[19] as int % 16
  {
    LowNibble(h[19]);
  }

  lemma {:induction false} SevenBits(a: byte, b: byte, c: byte, d: byte)
    ensures ((((a as bv32) & 0x7f) << 24) | ((b as bv32) << 16) | ((c as bv32) << 8) | (d as bv32)) as int
         == a as int % 128 * 0x100_0000 + b as int * 0x1_0000 + c as int * 0x100 + d as int
  {
  }

  /** Dropping the top bit of the first byte is a remainder. */
  lemma {:induction false} WithoutTopBit(w: int, a: int, b: int, c: int, d: int)
    requires 0 <= a < 256 && 0 <= b < 256 && 0 <= c < 256 && 0 <= d < 256
    requires w == a % 128 * 0x100_0000 + b * 0x1_0000 + c * 0x100 + d
    ensures w == (a * 0x100_0000 + b * 0x1_0000 + c * 0x100 + d) % 0x8000_0000
  {
  }

  lemma {:induction false} FourBytes(a: byte, b: byte, c: byte, d: byte)
    ensures Word(a, b, c, d) as int
         == (a as int * 0x100_0000 + b as int * 0x1_0000 + c as int * 0x100 + d as int) % 0x8000_0000
  {
    SevenBits(a, b, c, d);
    WithoutTopBit(Word(a, b, c, d) as int, a as int, b as int, c as int, d as int);
  }

  /** The four bytes at the place that the last one names, read big-endian, without the top bit. */
  lemma {:induction false} TruncateIsStandard(h: bytes, o: int)
    requires |h| == 20 && o == h[19] as int % 16
    ensures o + 3 < 20
    ensures Truncate(h) as int ==
              (h[o] as int * 0x100_0000 + h[o + 1] as int * 0x1_0000 + h[o + 2] as int * 0x100 + h[o + 3] as int)
                % 0x8000_0000
  {
    OffsetMeans(h);
    FourBytes(h[o], h[o + 1], h[o + 2], h[o + 3]);
  }

  /** The code: six decimal digits. */
  function Hotp(mac: Mac, secret: bytes, counter: uint64): (code: nat)
    requires MacLength(mac)
    ensures code < 1_000_000
  {
    Truncate(mac(secret, PutUint64(counter))) as int % 1_000_000
  }

  /**
   Sections 5.2 and 5.3 of RFC 4226 in numbers: the MAC of the eight bytes of the counter, the four bytes at
   the place that the low four bits of its last byte name, without the top bit, modulo a million.
   */
  lemma {:induction false} HotpIsStandard(mac: Mac, secret: bytes, counter: uint64, msg: bytes, h: bytes, o: int)
    requires MacLength(mac)
    requires |msg| == 8 && forall i :: 0 <= i < 8 ==> msg[i] as int == counter / Power(256, 7 - i) % 256
    requires h == mac(secret, msg) && o == h[19] as int % 16
    ensures o + 3 < |h| == 20
    ensures Hotp(mac, secret, counter) ==
              (h[o] as int * 0x100_0000 + h[o + 1] as int * 0x1_0000 + h[o + 2] as int * 0x100 + h[o + 3] as int)
                % 0x8000_0000 % 1_000_000
  {
    forall i | 0 <= i < 8 ensures msg[i] == PutUint64(counter)[i] {
      BytesByPlace(counter, 8, i);
    }
    assert msg == PutUint64(counter);
    TruncateIsStandard(h, o);
  }

  /** The example of section 5.4 of RFC 4226: this MAC gives the code 872921. */
  lemma {:induction false} HotpExample(mac: Mac, secret: bytes, counter: uint64)
    requires MacLength(mac)
    requires mac(secret, PutUint64(counter)) ==
               [0x1f, 0x86, 0x98, 0x69, 0x0e, 0x02, 0xca, 0x16, 0x61, 0x85,
                0x50, 0xef, 0x7f, 0x19, 0xda, 0x8e, 0x94, 0x5b, 0x55, 0x5a]
    ensures Hotp(mac, secret, counter) == 872921
  {
    forall i | 0 <= i < 8 ensures PutUint64(counter)[i] as int == counter / Power(256, 7 - i) % 256 {
      BytesByPlace(counter, 8, i);
    }
    var h := mac(secret, PutUint64(counter));
    assert h[19] as int == 0x5a && h[19] as int % 16 == 10;
    assert h[10] as int == 0x50 && h[11] as int == 0xef && h[12] as int == 0x7f && h[13] as int == 0x19;
    HotpIsStandard(mac, secret, counter, PutUint64(counter), h, 10);
  }

  // ---- the time window ----

  /** Integer division that rounds toward zero. */
  function TruncDiv(a: int, b: int): int
    requires b > 0
  {
    if a >= 0 then a / b else -((-a) / b)
  }

  /** uint64(x) for a signed x. */
  function Wrap(x: int): uint64 {
    x % 0x1_0000_0000_0000_0000
  }

  /** A counter that fits is kept, and a negative one counts down from the top. */
  lemma {:induction false} WrapMeans(x: int)
    ensures 0 <= x < 0x1_0000_0000_0000_0000 ==> Wrap(x) == x
    ensures -0x1_0000_0000_0000_0000 <= x < 0 ==> Wrap(x) == x + 0x1_0000_0000_0000_0000
  {
  }

  /** The three counters that Verify tries at time `now`. */
  ghost predicate InWindow(counter: int, now: Time) {
    TruncDiv(now, STEP) - 1 <= counter <= TruncDiv(now, STEP) + 1
  }

  ghost predicate Accepts(mac: Mac, secret: bytes, code: nat, now: Time)
    requires MacLength(mac)
  {
    exists counter :: InWindow(counter, now) && Hotp(mac, secret, Wrap(counter)) == code
  }

  /** When a counter is tried, at any clock. Rounding toward zero widens the window of counters 0 and 1 before 1970. */
  lemma {:induction false} WindowExact(counter: nat, now: Time)
    ensures var first := if counter >= 2 then 30 * (counter - 1) else 30 * (counter - 2) + 1;
            InWindow(counter, now) <==> first <= now < 30 * (counter + 2)
  {
  }

  /** From 1970 on, counter c is tried exactly during [30(c-1), 30(c+2)). */
  lemma {:induction false} WindowIsInterval(counter: nat, now: nat)
    ensures InWindow(counter, now) <==> 30 * (counter - 1) <= now < 30 * (counter + 2)
  {
  }

  /** The code of counter c is accepted over that whole interval. */
  lemma {:induction false} CodeOfCounterAccepted(mac: Mac, secret: bytes, counter: nat, now: nat)
    requires MacLength(mac)
    requires 30 * (counter - 1) <= now < 30 * (counter + 2)
    ensures Accepts(mac, secret, Hotp(mac, secret, Wrap(counter)), now)
  {
    WindowIsInterval(counter, now);
    var c: int := counter;
    assert InWindow(c, now) && Hotp(mac, secret, Wrap(c)) == Hotp(mac, secret, Wrap(counter));
  }

  /** A code generated at time t is accepted at every time within 30 seconds of t. */
  lemma {:induction false} CodeAcceptedNearby(mac: Mac, secret: bytes, t: nat, now: nat)
    requires MacLength(mac)
    requires -30 <= t - now <= 30
    ensures Accepts(mac, secret, Hotp(mac, secret, Wrap(t / 30)), now)
  {
    CodeOfCounterAccepted(mac, secret, t / 30, now);
  }

  lemma {:induction false} CounterAccepts(mac: Mac, secret: bytes, code: nat, now: nat, counter: int, w: uint64)
    requires MacLength(mac) && now / 30 - 1 <= counter <= now / 30 + 1
    requires w == Wrap(counter) && Hotp(mac, secret, w) == code
    ensures Accepts(mac, secret, code, now)
  {
    assert InWindow(counter, now);
  }

  lemma {:induction false} AcceptingCounter(mac: Mac, secret: bytes, code: nat, now: nat)
    returns (counter: int, w: uint64)
    requires MacLength(mac) && Accepts(mac, secret, code, now)
    ensures now / 30 - 1 <= counter <= now / 30 + 1
    ensures w == Wrap(counter) && Hotp(mac, secret, w) == code
  {
    counter :| InWindow(counter, now) && Hotp(mac, secret, Wrap(counter)) == code;
    w := Wrap(counter);
  }

  /** The counters tried from 1970 on, as they are hashed; in the first 30 seconds one is the largest there is. */
  predicate IsTried(w: uint64, now: nat) {
    w == now / 30 || w == now / 30 + 1 || w == (if now < 30 then 0xFFFF_FFFF_FFFF_FFFF else now / 30 - 1)
  }

  lemma {:induction false} TriedCounter(w: uint64, now: nat) returns (counter: int)
    requires IsTried(w, now)
    ensures now / 30 - 1 <= counter <= now / 30 + 1 && w == Wrap(counter)
  {
    WrapMeans(now / 30 - 1);
    counter := if w == now / 30 || w == now / 30 + 1 then w else now / 30 - 1;
  }

  /** From 1970 on, the codes of exactly these counters are accepted. */
  lemma {:induction false} AcceptsIff(mac: Mac, secret: bytes, code: nat, now: nat)
    requires MacLength(mac) && now / 30 + 1 < 0x1_0000_0000_0000_0000
    ensures Accepts(mac, secret, code, now) <==>
              exists w: uint64 :: IsTried(w, now) && Hotp(mac, secret, w) == code
  {
    if Accepts(mac, secret, code, now) {
      var counter, w := AcceptingCounter(mac, secret, code, now);
      WrapMeans(counter);
      assert IsTried(w, now);
    }
    forall w: uint64 | IsTried(w, now) && Hotp(mac, secret, w) == code ensures Accepts(mac, secret, code, now) {
      var counter := TriedCounter(w, now);
      CounterAccepts(mac, secret, code, now, counter, w);
    }
  }

  /** The loop of Verify: three counters, first match wins. */
  method CheckCode(mac: Mac, secret: bytes, code: nat, now: Time) returns (ok: bool)
    requires MacLength(mac)
    ensures ok <==> Accepts(mac, secret, code, now)
  {
    var delta := -1;
    while delta <= 1
      invariant -1 <= delta <= 2
      invariant forall c :: TruncDiv(now, STEP) - 1 <= c < TruncDiv(now, STEP) + delta ==>
          Hotp(mac, secret, Wrap(c)) != code
    {
      var counter := Wrap(TruncDiv(now, STEP) + delta);
      var expected := Hotp(mac, secret, counter);
      if expected == code {
        assert InWindow(TruncDiv(now, STEP) + delta, now);
        return true;
      }
      delta := delta + 1;
    }
    return false;
  }

  // ---- the records ----

  datatype TOTPRecord = TOTPRecord(name: string, secret: bytes, policy: string)

  function StoredRecord(j: JsonView, rec: TOTPRecord): TOTPRecord {
    rec.(name := j.text(rec.name), policy := j.text(rec.policy))
  }

  datatype Env = Env(mac: Mac, json: JsonView, codec: Codec<TOTPRecord>) {
    ghost predicate Lawful() {
      MacLength(mac) && codec.ReadsBack(rec => Some(StoredRecord(json, rec)))
    }
  }

  function FetchTOTP(env: Env, store: map<string, bytes>, name: string): Result<TOTPRecord> {
    if TOTP_ROOT + name !in store then Err(UnknownService)
    else
      match env.codec.unmarshal(store[TOTP_ROOT + name])
      case None => Err(UnmarshalFailed)
      case Some(rec) => Ok(rec)
  }

  /** What a TOTP login must answer: the record whose secret makes the code, or the error that applies. */
  ghost function VerifyAnswer(env: Env, store: map<string, bytes>, name: string, code: nat,
                              now: Time): Result<TOTPRecord>
    requires MacLength(env.mac)
  {
    match FetchTOTP(env, store, name)
    case Err(e) => Err(e)
    case Ok(rec) => if Accepts(env.mac, rec.secret, code, now) then Ok(rec) else Err(BadCode)
  }

  class TOTPAuth {
    const db: DB
    const env: Env

    constructor (db: DB, env: Env)
      requires env.Lawful()
      ensures this.db == db && this.env == env
    {
      this.db := db;
      this.env := env;
    }

    method RegisterTOTP(rec: TOTPRecord) returns (err: Option<Error>)
      requires env.Lawful()
      modifies db
      ensures err.None? ==>
                FetchTOTP(env, db.store, rec.name) ==
                  Ok(TOTPRecord(env.json.text(rec.name), rec.secret, env.json.text(rec.policy)))
      ensures err.None? ==> env.codec.marshal(rec).Some?
      ensures err.None? ==>
          db.store == old(db.store)[TOTP_ROOT + rec.name := env.codec.marshal(rec).value]
      ensures db.StaysBelow(TOTP_ROOT) && db.expiring <= old(db.expiring)
      ensures err.Some? ==> db.store == old(db.store) && !db.reliable
    {
      var data := env.codec.marshal(rec);
      if data.None? {
        return Some(MarshalFailed);
      }
      assert TOTP_ROOT <= TOTP_ROOT + rec.name;
      err := db.Set("auth/services/totp/" + rec.name, data.value);
    }

    method GetTOTP(name: string) returns (r: Result<TOTPRecord>)
      ensures r == FetchTOTP(env, db.store, name) || (!db.reliable && r == Err(StorageFailure))
    {
      var data := db.Get("auth/services/totp/" + name);
      if data.Err? {
        return Err(if data.error == NotFound then UnknownService else data.error);
      }
      match env.codec.unmarshal(data.value)
      case None => return Err(UnmarshalFailed);
      case Some(rec) => return Ok(rec);
    }

    /** Verify answers with the record exactly when its secret makes the code for one of the three counters. */
    method Verify(serviceName: string, code: nat, now: Time) returns (r: Result<TOTPRecord>)
      requires env.Lawful()
      ensures r == VerifyAnswer(env, db.store, serviceName, code, now) || (!db.reliable && r == Err(StorageFailure))
      ensures r.Ok? ==> FetchTOTP(env, db.store, serviceName) == r && Accepts(env.mac, r.value.secret, code, now)
      ensures r == Err(BadCode) ==>
                var rec := FetchTOTP(env, db.store, serviceName);
                rec.Ok? && !Accepts(env.mac, rec.value.secret, code, now)
    {
      var rec := GetTOTP(serviceName);
      if rec.Err? {
        return Err(rec.error);
      }
      var ok := CheckCode(env.mac, rec.value.secret, code, now);
      if ok {
        return rec;
      }
      return Err(BadCode);
    }
  }
}
