# Verification of lockr's stores, transit keys, logins and policies

lockr keeps secrets in a flat, ordered key-value store. This project models the parts of it that carry
state — the versioned secret store, directory listing, transit keyrings, the Ed25519 challenge protocol,
sessions, TOTP codes, policies, the framing around the cryptography, and all of these over the one database
they share — and proves what they promise.

## How the project is built

| files | part |
|---|---|
| `Wrappers`, `Numbers`, `Text`, `Json`, `Hex`, `Base64` | results and errors, positional notation, byte strings, decimal and hexadecimal printing, base64 |
| `Order`, `Database` | byte order, the atomic ordered map, the seek-and-scan loops, one-level listing |
| `Crypto` | nonce framing, salted password hashes, the byte comparison, buffers |
| `KVLayout` | the keys of a secret's records, and reading them back |
| `KVRecords` | one store step at a time on decoded records; what the records of a path mean; runs in which any step may fail |
| `KVRuns` | runs without failures, against an abstract vault of histories; what happens to paths that JSON changes |
| `KVInterleaving` | single store steps of writers, readers and failures in any order |
| `KVStore` | the store methods over bytes, JSON and sealing, tied to `KVRecords` |
| `KVListing` | what a listing shows, for arbitrary records and in terms of the vault |
| `Transit`, `TransitStore` | keyrings, ciphertext text, runs of key operations; the engine over bytes |
| `Challenge`, `Ed25519Auth` | the challenge protocol as a transition system; the login over bytes |
| `Session`, `SessionStore` | sessions as a transition system; the session store over bytes |
| `Policy`, `Totp` | rule decisions and path patterns; one-time codes and their time window |
| `Engines` | all stores over one database: who touches whose records |

A `char` stands for one byte of a Go string. The store is a `map` from such strings to bytes, iterated in
byte order, and each call on it is one atomic transaction. A store that is not `reliable` may fail any call,
and then changes nothing; the same flag on `Crypto` lets the random source fail. A record written with a time
to live may vanish between any two calls. Clock readings are parameters. AES-GCM, HKDF, Argon2id, SHA-256,
HMAC-SHA1, Ed25519 and JSON are functions held in records (`Primitives`, `Codec`, `JsonView`, the `Env` of
each store), each with only the law that is needed:

- what is sealed under a key and nonce opens under them (`OpensSealed`);
- a record written as JSON reads back, with its strings passed through `text` and raw values through `raw`
  (`ReadsBack`); compacting a value twice is compacting it once (`Stable`);
- Argon2id hashes are 32 bytes long and do not collide on the tokens of a run (`HashLength`, `CollisionFree`);
- HMAC-SHA1 values are 20 bytes long (`MacLength`);
- a service record and a TOTP record each read as the other with its key material missing (`CrossReads`).

Every lemma switches Dafny's automatic induction off, so each inductive proof is the one that is written.

Key material, nonces, salts, tokens and challenges are arbitrary; nothing relies on their being random, except
that `VersionsKeptIff` and `NextRotationTakesOver` speak of drawn keys that are new.

## Main results

- **Interrupted writes.** In any run of Set, Delete and Rollback on any paths, each stopping after any store
  step, the records of a path stand for exactly the acknowledged writes to it (`FaultyRunConsistent`); the last
  ten committed versions are there, and anything else is one orphan or a leftover that is still true
  (`StoreHoldsCommitted`). An operation cut off behind its commit counts as acknowledged.
- **Readers beside writers.** With one writer per path, a Get interleaved step by step returns the committed
  value of the version it names, or lost a race against at least ten commits (`ReaderAnswers`). A Versions
  interleaved in the same way lists committed entries of its window in order, and leaves one out only after
  such a race or a failed read (`VersionsAnswers`). What is committed is never rewritten
  (`CommittedRecordsStay`).
- **Failure-free refinement.** The records of a path are the exact image of an abstract history and answer like
  it (`FailureFreeRefinement`, `GetSucceedsIff`, `VersionsCountUp`, `RollbackKeepsValue`, `SetUndeletes`).
- **Independent paths, exactly as far as it goes.** For arbitrary byte strings and any interruption, an
  operation can only be noticed on its own path and on the one JSON makes of it (`OtherPathsUntouched`), and
  the second exception is real (`OthersUntouchedIff`, `IndependentIffFaithful`).
- **Layout and listing.** Keys are injective for arbitrary paths (`ParseKeyOf`, `KeyOfParse`), scans equal
  filters, listings stand in the order of their bytes (`LessIsByteOrder`), and a listing shows exactly the ways to the records below it and its own records
  (`ListingShowsRecords`, `ListingAgrees`); after any failure-free run on any paths it is known from the run
  (`ListingAfterAnyRun`).
- **Transit round trip** over any run of key operations on any names (`TransitRoundTrip`), with the exact
  condition under which a call loses keys (`VersionsKeptIff`). The text of a ciphertext is known character by
  character (`PrintedText`, `DecimalIsNumeral`, `EncodedByIndex`), and so is every answer of Decrypt to any text
  (`ParsesIff`, `DecryptMeans`).
- **One-shot challenges**, accepted until exactly 60 seconds after the issue, and sweeps that cannot be observed
  (`OneShot`, `TakeUsesUp`, `IssuedThenAccepted`, `LateCallRejected`, `PruningUnobservable`).
- **Sessions.** A success returns what the very token was issued with, within the lifetime counted from that
  issue (`SessionSoundness`), and a token that is issued validates until then and no longer
  (`IssuedThenValidated`).
- **Policies.** Wildcard rules are segment prefixes (`WildcardMatches`), all other rules are exact
  (`ExactMatches`), and who decides is known for every name (`WhoDecides`).
- **One-time codes.** The code is that of RFC 4226 in numbers (`HotpIsStandard`), and exactly the codes of
  three counters are accepted, each during a known interval (`AcceptsIff`, `WindowExact`).
- **One database.** No engine touches the records of another (`EnginesSurvive` and the methods of `Engines`),
  except that the two logins share keys in exactly one way (`SharedKeyIff`).

The per-path results hold for a path that JSON keeps *apart* from the paths of the run: none of them becomes
this path by being written as JSON, unless it is this path (`Apart`). How the other paths fare does not matter.

## Where the code falls short of its promise

- *Names that JSON does not keep.* `writeMeta` writes under the path inside the metadata, while reads use the
  path of the caller, and `encoding/json` replaces bytes that are not valid UTF-8. So operations are not
  independent per path. The first Set of a path is in order. From then on, for a path that JSON changes:
  - its own records are stuck: only version 1 is ever read or listed, no Delete shows, and every further
    write answers version 2 (`UnfaithfulPathIsStuck`, `SecondSetShowsIff`, `DeleteHidesIff`);
  - the metadata lands on the path that JSON makes of it (`MetaLandsUnderText`). A secret of that name has its
    version count set back, so that later versions cannot be read and are overwritten
    (`SecondSetHidesOther`), or is deleted with all its versions (`DeleteHidesOther`).
    `BadPathDeletesGoodPath` is such a run on two concrete paths;
  - if there was no secret of that name, there is metadata now under a path that nobody has written, and
    listings show the way to it (`UnwrittenPathIsStored`, `ListingShowsUnwritten`). So a listing leads exactly to
    the paths ever written when all of them survive JSON (`ListingAfterRun`), and in general to the paths that an
    operation has given metadata (`HasMetaIff`, `ListingAfterAnyRun`).

  A call harms no other path exactly when its path is new, or survives JSON, or the metadata it overwrites
  happens to be the same (`OthersUntouchedIff`). A path that survives JSON is safe in every store, and no other
  is (`IndependentIffFaithful`).
- *Transit names alike.* A rotation shows exactly when the name survives JSON (`RotationShowsIff`); otherwise
  the rotated ring replaces the one stored under the name that JSON makes of it, and its keys are lost
  (`RotationTakesOver`), with every such rotation again (`NextRotationTakesOver`). `BadNameTakesOverGoodName` is
  such a run on two concrete names.
- *CreateKey on an existing key.* It refuses only when loading the ring succeeds; on any load error it writes
  a fresh ring over the old one, and afterwards the old ciphertexts are opened with the new key
  (`ClobberedKeyOpensWithNew`). These two calls are all that can take versions away, and the condition under
  which they do is exact (`VersionsKeptIff`).
- *Logins that share keys.* TOTP records live below the root of the service records. A service called `totp/x`
  is the TOTP record `x` with an empty secret, and a TOTP record is a service without a public key
  (`ServiceReadsAsCode`, `CodeIsService`), for which no challenge is ever accepted (`CodeNeverAccepted`). Under
  all other names the two logins are independent (`OtherCodesStay`, `ServiceChangesOneCode`).
- *Public keys of a wrong length.* `ed25519.Verify` panics on them. The model answers with an error of its own
  there (`BadPublicKey`); the challenge has been used up by then.
- *Counters before 1970.* Go's division rounds toward zero, so a negative clock widens the window of
  counters 0 and 1 (`WindowExact`).

Where documents and code differ, the model follows the code: ten versions are kept (`README.md:11` and
`PRODUCT.md:11` say five), rollback and Set do prune old versions (`docs/kv-secrets.md` says history is never
deleted), and the built-in `admin` policy grants what `readwrite` grants (`docs/policies.md` adds database
engines).

## Model

| member | source | states |
|---|---|---|
| Database.DB.Get | internal/storage/badger.go:43-57 | the stored bytes, or not-found exactly when the key is absent; an unreliable store may answer with a failure instead |
| Database.DB.Set | internal/storage/badger.go:59-63 | one key gets the value, or the call fails and nothing changes |
| Database.DB.SetWithTTL | internal/storage/badger.go:65-70 | as Set, and from then on the record may vanish by itself |
| Database.DB.Vanish | internal/storage/badger.go:65-70 | a record written with a time to live disappears between two calls; no other record can |
| Database.DB.Delete | internal/storage/badger.go:72-76 | one key is gone, or the call fails and nothing changes |
| Database.Iterator.Seek | internal/storage/badger.go:87-87 | the cursor stands on the first key that is not before the prefix |
| Database.DB.List | internal/storage/badger.go:79-93 | exactly the stored keys with the prefix, each once; each key is before all later ones: a proper prefix of them, or smaller at the first byte where they differ |
| Database.DB.Scan | internal/storage/badger.go:96-114 | exactly the stored pairs whose key has the prefix |
| Database.Collect | internal/storage/badger.go:104-112 | the loop collects the pairs between the seek and the first key without the prefix, and stops there |
| Database.DB.ListDirect | internal/storage/badger.go:117-140 | exactly the one-level children of the directory, each once, in that same byte order; a missing final slash is added |
| Database.DirectoryMeans | internal/storage/badger.go:117-120 | a prefix that ends in a slash is the directory; any other gets one slash more |
| Database.TruncateKey | internal/storage/badger.go:128-133 | a key cut after its first segment below the directory |
| Database.TruncateKeys | internal/storage/badger.go:125-138 | the children of the scanned keys in order of first occurrence |
| Database.ScanComplete | internal/storage/badger.go:87-89 | when the scan stops, a key has the prefix iff the scan has passed over it since the seek |
| Database.ScanIsFilter | internal/storage/badger.go:87-89 | for every key set and prefix, what the loop collected is the filtered key list |
| Order.EnumerationUnique | internal/storage/badger.go:79-93 | there is only one ascending list of a set of keys, so the listings are determined |
| Order.LessIsByteOrder | internal/storage/badger.go:79-93 | the order of the store said on the bytes: one string comes before another iff it is a proper prefix of it or has the smaller byte at the first difference |
| Order.AscendingIsByteOrder | internal/storage/badger.go:79-93 | a list ascends iff all its pairs stand in that byte order |
| Order.BeyondPrefix | internal/storage/badger.go:87-87 | behind the block of keys with a prefix no later key has it, so stopping at the first miss is right |
| Order.FirstLevelIsSplit | internal/storage/badger.go:128-133 | splitting once at a slash and putting the slash back is the text up to the first slash |
| Order.FirstLevelMonotone | internal/storage/badger.go:128-133 | cutting at the first slash keeps byte order |
| Order.SeenIsAdjacent | internal/storage/badger.go:125-138 | on cut ascending keys a child was seen before iff it equals its predecessor |
| Order.DropRepeatsIsDropAdjacent | internal/storage/badger.go:125-138 | the seen map amounts to dropping adjacent repeats |
| Crypto.Copy | internal/storage/crypto.go:122-124 | the target holds the source at the offset and is otherwise unchanged |
| Crypto.ZeroBytes | internal/storage/crypto.go:203-207 | every byte of the buffer is zero afterwards |
| Crypto.Subtle32Equal | internal/storage/crypto.go:210-219 | the accumulated differences are zero iff the strings are equal, for any lengths |
| Crypto.Crypto.Encrypt | internal/storage/crypto.go:109-126 | nonce followed by the plaintext sealed under the key of the path |
| Crypto.Crypto.Decrypt | internal/storage/crypto.go:129-142 | opens such a frame: fewer than 12 bytes are too short, the rest is what the cipher makes of the 12-byte nonce and the remainder |
| Crypto.FrameOpens | internal/storage/crypto.go:109-142 | Decrypt of what Encrypt returned gives the plaintext |
| Crypto.Crypto.HashArgon2id | internal/storage/crypto.go:146-157 | 64 bytes: a salt of 32 and the hash under that salt |
| Crypto.Crypto.VerifyArgon2id | internal/storage/crypto.go:160-169 | true iff there are at least 64 bytes and the password hashed under the first 32 gives the rest |
| Crypto.HashAcceptsOnlyIts | internal/storage/crypto.go:146-169 | a stored hash accepts its password, and among passwords without collisions no other |
| KVLayout.ParseKeyOf | internal/secrets/kv.go:143-198 | reading a key back gives its path and record, for arbitrary paths |
| KVLayout.KeyOfParse | internal/secrets/kv.go:143-198 | a key that reads back is the key of what was read |
| KVLayout.LayoutInjective | internal/secrets/kv.go:143-198 | the metadata and version keys of different records never coincide |
| KVLayout.KeyTexts | internal/secrets/kv.go:143-198 | the keys by their characters: secrets/kv/, the path, and /__meta or /v and the decimal numeral of the version |
| Text.DecimalRoundTrip | internal/secrets/kv.go:169-169 | a printed version number reads back |
| Text.DecimalIsNumeral | internal/secrets/kv.go:169-169 | what is printed for a number, by its characters: each digit is worth what its place says, and no zero stands in front |
| Text.NumeralUnique | internal/secrets/kv.go:169-169 | a number has only one such text |
| Text.FirstDigitCounts | internal/secrets/transit.go:183-183 | what any digits are worth when they are read, with or without zeros in front |
| KVRecords.GetIsCommitted | internal/secrets/kv.go:39-56 | Get returns the committed value of the version it names, or exactly the error that applies; a window version is never missing |
| KVRecords.VersionsListed | internal/secrets/kv.go:106-127 | Versions lists exactly min(n,10) entries numbered up to n, ascending, without values, orphans or leftovers |
| KVRecords.VersionsIgnoreDelete | internal/secrets/kv.go:106-127 | a Delete does not change what Versions lists |
| KVRecords.OrphanKeeps | internal/secrets/kv.go:78-80 | writing the version record alone commits nothing and disturbs nothing |
| KVRecords.CommitKeeps | internal/secrets/kv.go:81-83 | writing the metadata commits exactly the version that is there |
| KVRecords.PruneKeeps | internal/secrets/kv.go:86-89 | pruning removes only what has left the ten-version window |
| KVRecords.FlagKeeps | internal/secrets/kv.go:95-103 | setting the deleted flag touches no version |
| KVRecords.SetTolerant | internal/secrets/kv.go:59-92 | wherever a Set stops: an Ok answer has appended exactly one version with the next number, an error has not changed the history of the path |
| KVRecords.DeleteTolerant | internal/secrets/kv.go:95-103 | wherever a Delete stops, the history of the path stays; an Ok answer has set the flag |
| KVRecords.RollbackTolerant | internal/secrets/kv.go:130-136 | wherever a Rollback stops: an Ok answer has appended the old value again, an error has not changed the history of the path |
| KVRecords.OtherPathsUntouched | internal/secrets/kv.go:143-198 | no operation on a path, wherever it stops, changes a record of or an answer about any path but its own and the one JSON makes of it; all paths are arbitrary byte strings |
| KVRecords.OpKeepsLabels | internal/secrets/kv.go:156-165 | in every state metadata carries the name that JSON makes of the path it is stored under, whatever the paths and wherever operations stop |
| KVRecords.MetaLandsUnderText | internal/secrets/kv.go:156-165 | a successful operation on a stored path writes its metadata under the name that JSON makes of the path, and under no other |
| KVRecords.OthersUntouchedIff | internal/secrets/kv.go:143-198 | one successful operation leaves every other path alone iff its path is new, or survives JSON, or the metadata it overwrites is the same already |
| KVRecords.IndependentIffFaithful | internal/secrets/kv.go:59-92 | Set of a path leaves all other paths alone in every store iff the path survives JSON |
| KVRecords.UnfaithfulPathIsStuck | internal/secrets/kv.go:59-127 | a path that JSON changes keeps the metadata of its first write through every run: only version 1 is read or listed, no Delete shows, every later write answers version 2 |
| KVRecords.HasMetaIff | internal/secrets/kv.go:59-103 | in every run on any paths with any interruptions, a path has metadata iff a successful operation was on it, or was on a stored path that JSON turns into it |
| KVRecords.FaultyRunConsistent | internal/secrets/kv.go:39-136 | in every run on any paths with any interruptions, the records of a path stand for exactly the writes to it that answered Ok, if JSON keeps it apart from the other paths of the run |
| KVRuns.ImageGet | internal/secrets/kv.go:39-56 | on the image of a vault Get answers from the history |
| KVRuns.ImageAppend | internal/secrets/kv.go:59-92 | Set appends to the history, clears the flag and moves the window by one |
| KVRuns.StepRefines | internal/secrets/kv.go:59-136 | each operation on a path that survives JSON is the operation on the vault, with the same answer |
| KVRuns.OtherStepRefines | internal/secrets/kv.go:59-136 | an operation on another path that JSON keeps apart moves neither the records nor the vault |
| KVRuns.FailureFreeRefinement | internal/secrets/kv.go:39-136 | after any failure-free run on any paths, the records of a path that JSON keeps apart are exactly the image of the vault, and all answers about it agree |
| KVRuns.WholeRefinement | internal/secrets/kv.go:39-136 | if all paths of the run survive JSON, the whole store is the image of the vault and all answers agree |
| KVRuns.RunIsItsStates | internal/secrets/kv.go:39-136 | a run without failures is one of the runs with interruptions, step by step |
| KVRuns.StoredAfterRun | internal/secrets/kv.go:59-103 | after any failure-free run on any paths, exactly the paths that an operation has given metadata have metadata, and no other path has a version |
| KVRuns.GetSucceedsIff | internal/secrets/kv.go:39-56 | Get succeeds iff the path exists, is not deleted, and the version is 0 or one of the last ten; then it is the committed value |
| KVRuns.SetUndeletes | internal/secrets/kv.go:67-69 | Set after Delete: hidden in between, and afterwards the versions of before are readable again |
| KVRuns.RollbackKeepsValue | internal/secrets/kv.go:85-89 | Rollback commits the old value as n+1 even if it prunes its own source; of the others only the oldest of a full window goes; on a deleted path nothing happens |
| KVRuns.VersionsCountUp | internal/secrets/kv.go:67-76 | the writes to a path are numbered 1, 2, 3, ... across deletes, rollbacks and other paths, and the path is stored iff there was one |
| KVRuns.SecondSetShowsIff | internal/secrets/kv.go:156-165 | a second Set of a path shows iff the path survives JSON; otherwise the first value stays, and the metadata of the path that JSON makes of it is replaced by version count 2 |
| KVRuns.DeleteHidesIff | internal/secrets/kv.go:95-103 | a Delete hides the secret iff the path survives JSON; otherwise it marks the path that JSON makes of it as deleted |
| KVRuns.SecondSetHidesOther | internal/secrets/kv.go:156-165 | what that does to a live secret of the other name: versions above 2 cannot be named, version 0 means 2, the next write is version 3 again |
| KVRuns.DeleteHidesOther | internal/secrets/kv.go:95-103 | and a Delete deletes that other secret with all its versions |
| KVRuns.BadPathDeletesGoodPath | internal/secrets/kv.go:59-103 | a run on two concrete paths in which the secret of the one is deleted through the other, and every call succeeds |
| KVRuns.UnwrittenPathIsStored | internal/secrets/kv.go:156-165 | after two Sets of a path that JSON changes, the path that JSON makes of it has metadata although nobody has written it |
| KVRuns.ImageIsConsistent | internal/secrets/kv.go:39-136 | the exact image is a special case of the reading that tolerates interruptions |
| KVInterleaving.RunKeeps | internal/secrets/kv.go:39-136 | the invariant of a path holds in every reachable state, and its history only grows |
| KVInterleaving.StoreHoldsCommitted | internal/secrets/kv.go:78-89 | metadata n: the last ten committed values are there, the rest is one orphan n+1 or leftovers up to n-10 with their true value |
| KVInterleaving.ReaderAnswers | internal/secrets/kv.go:39-56 | a Get beside a writer returns the committed value of the version it named, or not-found after at least ten further commits |
| KVInterleaving.ReaderCounts | internal/secrets/kv.go:39-56 | the two counts in that statement are the numbers of commits at the two reads |
| KVInterleaving.VersionsAlways | internal/secrets/kv.go:106-127 | the records list exactly the last min(n,10) commits in every reachable state |
| KVInterleaving.VersionsAnswers | internal/secrets/kv.go:106-127 | a Versions read step by step beside a writer lists committed entries of the window it found, ascending, without values; a version is missing only if its read failed or at least ten commits behind it came first |
| KVInterleaving.VersionsCounts | internal/secrets/kv.go:106-127 | the counts in that statement are the numbers of commits at the reads |
| KVInterleaving.VersionsIsItsReads | internal/secrets/kv.go:106-127 | an undisturbed Versions answers like the operation |
| KVInterleaving.CommittedRecordsStay | internal/secrets/kv.go:78-89 | from any reachable state to any later one: the version count never goes back, a committed version that is still stored has its value, and only versions out of the window may be gone |
| KVInterleaving.SetIsItsSteps | internal/secrets/kv.go:59-92 | the four store steps of an undisturbed Set are the operation: nothing is written by the read, then the version, then the metadata, then the pruning |
| KVInterleaving.DeleteIsItsSteps | internal/secrets/kv.go:95-103 | the two store steps of an undisturbed Delete are the operation; the first writes nothing |
| KVInterleaving.RollbackIsItsSteps | internal/secrets/kv.go:130-136 | the reads of a Rollback hand the old value to a Set or give up when Get would |
| KVInterleaving.GetIsItsReads | internal/secrets/kv.go:39-56 | an undisturbed Get answers like the operation: the first read chooses the version or refuses, the second reads it |
| KVStore.KVStore.Get | internal/secrets/kv.go:39-56 | the method answers like Get on the decoded records, or a store failure |
| KVStore.KVStore.Set | internal/secrets/kv.go:59-92 | any outcome is one of: nothing, orphan, commit, pruned commit, with the matching answer; a reliable store gives the full operation |
| KVStore.KVStore.Delete | internal/secrets/kv.go:95-103 | the metadata is marked or nothing changes; a missing path is an error |
| KVStore.KVStore.Versions | internal/secrets/kv.go:106-127 | lists the retained versions in ascending order, each at most once; reads that fail only leave entries out |
| KVStore.KVStore.Rollback | internal/secrets/kv.go:130-136 | a Get and then a Set of what it returned, with every way it may stop |
| KVStore.KVStore.List | internal/secrets/kv.go:139-141 | the one-level children of the directory below the secret root, each once, in byte order |
| KVStore.KVStore.GetMeta | internal/secrets/kv.go:143-154 | the metadata record of the path, or not-found exactly when there is none |
| KVStore.KVStore.WriteMeta | internal/secrets/kv.go:156-165 | the record is stored under the path it carries; on failure nothing changes |
| KVStore.KVStore.GetVersion | internal/secrets/kv.go:168-180 | one version record of the path |
| KVStore.KVStore.WriteVersion | internal/secrets/kv.go:182-193 | the version record is stored; invalid JSON values and failures change nothing |
| KVStore.KVStore.DeleteVersion | internal/secrets/kv.go:195-198 | one version record is gone; on failure nothing changes |
| KVStore.SlotWritten | internal/secrets/kv.go:143-198 | bytes written under the key of one record change that record and no other |
| KVListing.ListingAgrees | internal/secrets/kv.go:139-141 | the children of a directory are exactly the next segments towards stored paths below it, and the own records of the path that is the directory |
| KVListing.ListingShowsRecords | internal/secrets/kv.go:139-141 | the same for arbitrary records, so also after interrupted writes: the next segments towards the paths of stored records, and the own records of the path that is the directory |
| KVListing.ListingCompletesPrefix | internal/storage/badger.go:117-120 | a directory named without its final slash is listed like the one with it, whatever the records |
| KVListing.ListingAfterRun | internal/secrets/kv.go:139-141 | after any failure-free run on paths that survive JSON, the directories listed are exactly the next segments towards the paths ever written |
| KVListing.ListingAfterAnyRun | internal/secrets/kv.go:139-141 | after any failure-free run on arbitrary paths, they are exactly the next segments towards the paths that an operation was on or that JSON made of a stored path an operation was on |
| KVListing.ListingShowsUnwritten | internal/secrets/kv.go:139-141 | after two Sets of a path that JSON changes, the way to the path that JSON makes of it is listed although nobody has written it |
| KVListing.KindsOfChildren | internal/storage/badger.go:128-133 | directories end in a slash and records do not |
| KVListing.ChildOfSlot | internal/storage/badger.go:128-133 | under which child each record of a secret shows |
| Base64.RoundTrip | internal/secrets/transit.go:90-111 | decoding undoes encoding (section 4 of RFC 4648) |
| Base64.EncodedByIndex | internal/secrets/transit.go:90-91 | the text character by character: the symbols of section 4 of RFC 4648 for the base-64 digits of each three bytes, and = where only bytes behind the end would count |
| Base64.DecodeSextetIs | internal/secrets/transit.go:108-108 | the decoder reads exactly the 64 symbols of section 4 of RFC 4648, each as its value |
| Base64.DecodesIff | internal/secrets/transit.go:108-111 | exactly the texts of whole groups of symbols, padded at most at the end, decode, once line breaks are gone |
| Base64.LineBreaksMean | internal/secrets/transit.go:108-108 | exactly carriage returns and line feeds are skipped, anywhere |
| Base64.RawURLInjective | internal/auth/session.go:42-42 | different bytes have different URL-safe texts (section 5 of RFC 4648) |
| Base64.RawURLByIndex | internal/auth/session.go:42-42 | the URL-safe text character by character: the same digits in the alphabet of section 5 of RFC 4648, without padding |
| Transit.KeyAtIsIndex | internal/secrets/transit.go:135-146 | in a ring numbered 1..n the linear search is indexing, fails exactly outside, and finds the current key |
| Transit.ParsePrinted | internal/secrets/transit.go:178-188 | the parser reads back the version and data that Encrypt printed |
| Transit.PrintedText | internal/secrets/transit.go:90-91 | the text of a ciphertext: vault:v, the decimal numeral of the version, a colon and base64 |
| Transit.ParsesIff | internal/secrets/transit.go:178-188 | exactly vault, a piece of v, digits and anything without a colon, and a third piece are accepted, with the value of the digits; everything else is refused as a bad format (%d read as plain digits) |
| Transit.DecryptMeans | internal/secrets/transit.go:95-113 | every answer of Decrypt: bad format, unknown name, unknown version, bad base64 and short data in this order, else what the key of the version opens |
| Transit.LaterRingDecrypts | internal/secrets/transit.go:95-113 | a ring that still has the old versions opens what the old ring sealed |
| Transit.ApplyKeeps | internal/secrets/transit.go:39-76 | every key call on any name keeps existing versions and material in place, unless it is a clobbering creation or a rotation that JSON files under this name |
| Transit.RunNumbered | internal/secrets/transit.go:39-76 | in every run, for all names, the versions of a ring are exactly 1..CurrentVersion, so there is a current key, and the ring carries the name that JSON makes of its own |
| Transit.TransitRoundTrip | internal/secrets/transit.go:60-113 | a ciphertext opens to its plaintext after any further rotations, refused creations, failures and calls on other keys of any name, short of the two calls that replace the ring |
| Transit.ClobberedKeyOpensWithNew | internal/secrets/transit.go:39-57 | after a clobbering CreateKey version 1 means the new key and no other version is found |
| Transit.VersionsKeptIff | internal/secrets/transit.go:39-76 | for every call with a key new to the ring, and every stored key: its versions stay in place iff the call is neither a CreateKey of it with a load error, nor a rotation of another stored key that JSON renames to it and that does not have all these versions itself |
| Transit.RotationLands | internal/secrets/transit.go:60-76 | a rotation stores the rotated ring under the name that JSON makes of its name, and touches no other ring |
| Transit.RotationTakesOver | internal/secrets/transit.go:60-76 | creating and rotating a key whose name JSON turns into a stored one replaces that ring: its ciphertexts are opened with the two keys of the other |
| Transit.NextRotationTakesOver | internal/secrets/transit.go:60-76 | the next such rotation takes away the version that the one before has put there |
| Transit.BadNameTakesOverGoodName | internal/secrets/transit.go:39-76 | a run on two concrete names in which the key of the one is lost to the other, and every call succeeds |
| Transit.RotationShowsIff | internal/secrets/transit.go:165-176 | a rotation shows iff the name survives JSON; otherwise the rotated ring is stored under the name that JSON makes of it |
| TransitStore.TransitStore.CreateKey | internal/secrets/transit.go:39-57 | the rings change as the key operation says; on a reliable store an existing name is refused |
| TransitStore.TransitStore.Rotate | internal/secrets/transit.go:60-76 | one more version with the next number, or nothing |
| TransitStore.TransitStore.Encrypt | internal/secrets/transit.go:80-92 | the plaintext sealed under the current key, as vault:v, the decimal numeral of the current version, a colon and base64; fails only for unknown names and faults |
| TransitStore.TransitStore.Decrypt | internal/secrets/transit.go:95-113 | the answer of parsing, key search, decoding and opening, with each error case |
| TransitStore.StripKeys | internal/secrets/transit.go:116-133 | the ring as it is, without any key material |
| TransitStore.FindKeyVersion | internal/secrets/transit.go:139-146 | the first entry with that number, or none |
| TransitStore.TransitStore.LoadMeta | internal/secrets/transit.go:148-163 | the ring stored under the name, with each error case |
| TransitStore.TransitStore.SaveMeta | internal/secrets/transit.go:165-176 | the ring is stored under the name it carries; on failure nothing changes |
| TransitStore.TransitStore.AesgcmEncryptBytes | internal/secrets/transit.go:190-208 | a frame of the plaintext under the key; key lengths other than 16, 24 and 32 are refused |
| TransitStore.TransitStore.AesgcmDecryptBytes | internal/secrets/transit.go:210-225 | opens such a frame, or the error that applies; the same key lengths are refused |
| Hex.HexInjective | internal/auth/ed25519.go:55-55 | different challenges have different table keys |
| Hex.HexByIndex | internal/auth/ed25519.go:55-55 | two lower-case digits a byte, the high one first |
| Challenge.RunKeeps | internal/auth/ed25519.go:45-143 | every pending, taken and accepted challenge stands for an issue of its own in every reachable state |
| Challenge.OneShot | internal/auth/ed25519.go:71-102 | every success answers an issue of the same challenge for the same service, checked within 60 seconds, and no issue is answered twice |
| Challenge.AcceptedAtMostIssued | internal/auth/ed25519.go:71-102 | for each challenge value, successes never exceed the times it was handed out |
| Challenge.TakenIsGone | internal/auth/ed25519.go:74-83 | a taken challenge stays unusable until it is handed out again |
| Challenge.OnlyHoldersAccepted | internal/auth/ed25519.go:71-102 | until a challenge is handed out again, only calls that have already taken it succeed with it |
| Challenge.TakeUsesUp | internal/auth/ed25519.go:74-83 | a Verify call uses its challenge up even if it fails: afterwards no call but this one and earlier takers succeeds with it |
| Challenge.AcceptedRecordIsCurrent | internal/auth/ed25519.go:93-101 | a success returns the record stored at the service lookup, under whose key the signature verifies |
| Challenge.HonestCallAccepted | internal/auth/ed25519.go:71-102 | a pending challenge checked in time and signed with the key of its service is accepted |
| Challenge.IssuedThenAccepted | internal/auth/ed25519.go:45-102 | a challenge handed out in any state and answered within 60 seconds with the key of its service is accepted |
| Challenge.LateCallRejected | internal/auth/ed25519.go:71-102 | one that is checked later than 60 seconds after the issue is not, and its call is over |
| Challenge.Registration | internal/auth/ed25519.go:105-132 | a registered record is what is found under the name until it is removed; other names are not touched |
| Challenge.RemovedServiceRejected | internal/auth/ed25519.go:130-132 | after a service is deleted no Verify succeeds for it until it is registered again with a key, whatever else is filed under its name |
| Challenge.RemovedServiceStaysAway | internal/auth/ed25519.go:130-132 | and without any registration under its name it stays unknown |
| Challenge.StepUnpruned | internal/auth/ed25519.go:134-143 | each step keeps a pruned and a never-pruned table apart only by challenges past their time |
| Challenge.SweepMeans | internal/auth/ed25519.go:134-143 | a sweep removes exactly what is past its time at the stamp |
| Challenge.PruningUnobservable | internal/auth/ed25519.go:134-143 | the successful calls and their records are those of a table that is never pruned, for every interleaving and stale sweep time |
| Ed25519Auth.Ed25519Auth.GenerateChallenge | internal/auth/ed25519.go:45-68 | 32 bytes, filed for a known service with an expiry 60 seconds later; otherwise nothing changes |
| Ed25519Auth.Ed25519Auth.Verify | internal/auth/ed25519.go:71-102 | takes the challenge out in every case; unknown iff it was not there, expired iff its time was over, and a success is the record of its service, under whose 32-byte key the signature verifies |
| Ed25519Auth.Ed25519Auth.VerifyTaken | internal/auth/ed25519.go:88-101 | comparison, service lookup and signature check, with each error case |
| Ed25519Auth.Ed25519Auth.RegisterService | internal/auth/ed25519.go:105-111 | the record is stored under its name |
| Ed25519Auth.Ed25519Auth.GetService | internal/auth/ed25519.go:114-127 | the record stored under the name, or the error that applies |
| Ed25519Auth.Ed25519Auth.DeleteService | internal/auth/ed25519.go:130-132 | the record is gone |
| Ed25519Auth.Ed25519Auth.PruneExpired | internal/auth/ed25519.go:134-143 | exactly the challenges past the time stamp are removed |
| Ed25519Auth.VerifyIsItsSteps | internal/auth/ed25519.go:71-102 | the three steps of an undisturbed Verify in the protocol are the answer that the method gives |
| Ed25519Auth.GenerateIsItsSteps | internal/auth/ed25519.go:45-68 | the two steps of an undisturbed GenerateChallenge file the challenge as the method does |
| Ed25519Auth.SweepIsItsSteps | internal/auth/ed25519.go:134-143 | the two steps of an undisturbed sweep remove what the method removes |
| Session.SessionSoundness | internal/auth/session.go:37-106 | in every run a successful Validate returns what this very token was issued with, at most the lifetime after the time stamp of that issue, and not revoked before the record was read |
| Session.RevokedUntilReissued | internal/auth/session.go:100-102 | in every run, a success whose record was read after a revocation of its token means that the token was issued again in between |
| Session.LiveSessionValidates | internal/auth/session.go:71-97 | as long as the record is there and the time is not over, the token validates with its metadata |
| Session.IssuedTokenValidates | internal/auth/session.go:37-97 | after an issue at any time exactly that token answers, with the identity, method and policy of the issue, until the lifetime counted from it is over; then it answers as expired |
| Session.IssuedThenValidated | internal/auth/session.go:37-97 | the same in the transition system, from any state: a token issued, loaded and checked later succeeds iff the lifetime since its time stamp is not over |
| Session.RefusedTokens | internal/auth/session.go:71-97 | which token is refused with which error: exactly one without lvt_, one without a record, one that the stored hash refuses, one whose time is over |
| Session.SessionKeyText | internal/auth/session.go:104-107 | the key of a session: auth/sessions/ and the hexadecimal digits of the hash of the token |
| Session.ValidateIsItsSteps | internal/auth/session.go:71-97 | the steps of an undisturbed Validate in the transition system are the answer that the method gives, including the deletion of an expired record |
| SessionStore.SessionStore.Issue | internal/auth/session.go:37-68 | a token of the prefix and the URL-safe base64 text of 32 bytes; its record holds identity, method and policy, is issued now and expires a lifetime from now, has a salted hash of the token and a time to live |
| SessionStore.TokensDiffer | internal/auth/session.go:38-42 | different random bytes give different tokens, each lvt_ and 43 more characters long |
| SessionStore.SessionStore.Validate | internal/auth/session.go:71-97 | the exact answer for each case; only an expired record is deleted |
| SessionStore.SessionStore.Judge | internal/auth/session.go:85-96 | decoding, hash check and expiry check, with each error case |
| SessionStore.SessionStore.Revoke | internal/auth/session.go:100-102 | the record of the token is gone, or the call fails and nothing changes |
| SessionStore.SessionStore.Vanish | internal/auth/session.go:63-66 | a session record disappears by itself and is not found from then on |
| Policy.Decide | internal/policy/policy.go:153-165 | the early-exit loop grants iff no matching rule denies and some matching rule has the capability |
| Policy.Engine.Allowed | internal/policy/policy.go:139-166 | root may do anything, unknown policies nothing, loaded policies hide built-in ones, rules decide |
| Policy.OrderIrrelevant | internal/policy/policy.go:153-165 | the order of rules does not matter |
| Policy.AddingRules | internal/policy/policy.go:153-165 | adding an allow rule anywhere never revokes, adding a deny rule never grants |
| Policy.WildcardMatches | internal/policy/policy.go:184-190 | a wildcard pattern matches iff its segments are the first segments of the path under split, and iff the path is those segments and any others joined |
| Policy.ExactMatches | internal/policy/policy.go:184-190 | a pattern that does not end in a slash and a star matches itself and nothing else |
| Policy.ExactPolicyGrants | internal/policy/policy.go:139-166 | a loaded policy of such rules grants a capability on exactly the paths it lists with it and does not deny |
| Policy.WhoDecides | internal/policy/policy.go:139-151 | root needs no rules, a loaded policy comes before a built-in one of its name, any other name has none |
| Policy.TreeIsSegmentPrefix | internal/policy/policy.go:184-190 | the prefix test of the code is the segment-wise test under split |
| Policy.TreeIsJoin | internal/policy/policy.go:184-190 | the prefix test of the code is the existence of further segments under join |
| Text.JoinSplit | internal/policy/policy.go:184-190 | joining the segments of a path gives the path back |
| Policy.BuiltinsMean | internal/policy/policy.go:37-61 | the capabilities that the built-in policies grant, and where; admin grants exactly what readwrite grants |
| Policy.HasCapability | internal/policy/policy.go:192-199 | membership |
| Policy.Engine.SetPolicy | internal/policy/policy.go:122-126 | one policy is replaced or added |
| Policy.Engine.LoadAll | internal/policy/policy.go:82-107 | reloading succeeds iff every policy file loads; then each name has its last file, otherwise nothing changes |
| Policy.PolicyFileNames | internal/policy/policy.go:93-95 | the files read are exactly those that are no directories and end in .yaml or .yml |
| Policy.LastFileCounts | internal/policy/policy.go:92-101 | of several files that name one policy the last one counts |
| Totp.TruncateIsStandard | internal/auth/totp.go:97-101 | the bit operations are the dynamic truncation of section 5.3 of RFC 4226 |
| Totp.OffsetMeans | internal/auth/totp.go:97-97 | the low four bits of the last byte, as a number |
| Totp.Offset | internal/auth/totp.go:97-101 | the four bytes always lie inside a 20-byte MAC |
| Totp.HotpIsStandard | internal/auth/totp.go:89-103 | sections 5.2 and 5.3 of RFC 4226 in numbers: the MAC of the eight big-endian bytes of the counter, four bytes of it read big-endian from the place its last byte names, modulo 2^31, modulo a million |
| Totp.HotpExample | internal/auth/totp.go:89-103 | the example of section 5.4 of RFC 4226 gives 872921 |
| Totp.CounterRoundTrip | internal/auth/totp.go:90-91 | the eight bytes read big-endian are the counter, so different counters are different MAC messages |
| Totp.BytesByPlace | internal/auth/totp.go:91-91 | each byte of the message is the counter divided by its power of 256, modulo 256 |
| Totp.WrapMeans | internal/auth/totp.go:67-67 | the conversion to an unsigned counter keeps what fits and counts negative numbers down from the top |
| Totp.WindowIsInterval | internal/auth/totp.go:65-72 | counter c is tried exactly during [30(c-1), 30(c+2)) |
| Totp.WindowExact | internal/auth/totp.go:65-72 | the same for every clock, with the two counters that rounding toward zero widens |
| Totp.CodeOfCounterAccepted | internal/auth/totp.go:65-72 | the code of counter c is accepted over that whole interval |
| Totp.CodeAcceptedNearby | internal/auth/totp.go:65-72 | a code generated at time t is accepted at every time within 30 seconds of t |
| Totp.AcceptsIff | internal/auth/totp.go:65-72 | from 1970 on exactly the codes of three counters are accepted; in the first 30 seconds one is the largest counter there is |
| Totp.CheckCode | internal/auth/totp.go:65-73 | the loop accepts iff one of the three counters yields the code |
| Totp.TOTPAuth.Verify | internal/auth/totp.go:52-74 | a success is the stored record, whose secret makes the code; a bad code means that it does not; a missing or unreadable record has the error of the source |
| Totp.TOTPAuth.RegisterTOTP | internal/auth/totp.go:43-49 | the record is written under its name, reads back, and no other key changes |
| Engines.EnginesSurvive | internal/server/server.go:86-94 | a change below one root leaves the records of every engine whose root shares no key with it |
| Engines.RootsAreDisjoint | internal/server/server.go:86-94 | the secret, transit, service and session roots share no key |
| Engines.RootTexts | internal/server/server.go:86-94 | the roots and the keys of the engines by their characters |
| Engines.SharedKeyIff | internal/auth/totp.go:48-48 | a service and a TOTP record have the same key iff the service is called totp/ and the TOTP name |
| Engines.ServiceReadsAsCode | internal/auth/totp.go:53-63 | such a service reads as a TOTP record with an empty secret |
| Engines.CodeIsService | internal/auth/totp.go:43-49 | a TOTP record is at the same time a service record without a public key |
| Engines.CodeNeverAccepted | internal/auth/ed25519.go:71-102 | what a TOTP registration files never lets a Verify succeed, in any run without a registration under that name with a key |
| Engines.ServiceChangesOneCode | internal/auth/ed25519.go:105-111 | registering a service changes what TOTP logins read under that one name and no other |
| Engines.DeletionRemovesOneCode | internal/auth/ed25519.go:130-132 | deleting a service removes that one TOTP record and no other |
| Engines.CodeChangesOneCode | internal/auth/totp.go:43-49 | a TOTP registration changes what TOTP logins read under its own name and no other |
| Engines.EmptyDatabase | internal/server/server.go:32-41 | a new database holds no records of any engine |
| Engines.Engines.constructor | internal/server/server.go:86-94 | all engines over one database, which may be new or hold records already |
| Engines.OpenNew | internal/server/server.go:32-94 | the server with a new database starts without secrets, keys, services, sessions and codes |
| Engines.Engines.SetSecret | internal/server/server.go:86-94 | all outcomes of Set, with every engine over the one database in order and only the secrets changed |
| Engines.Engines.DeleteSecret | internal/server/server.go:86-94 | the same for all outcomes of Delete |
| Engines.Engines.Rollback | internal/server/server.go:86-94 | the same for all outcomes of Rollback |
| Engines.Engines.CreateKey | internal/server/server.go:86-94 | all outcomes of CreateKey, including its refusals, with only the key rings changed |
| Engines.Engines.RotateKey | internal/server/server.go:86-94 | the same for all outcomes of Rotate |
| Engines.Engines.IssueSession | internal/server/server.go:86-94 | all outcomes of Issue, with its token and record, with only the sessions changed |
| Engines.Engines.ValidateSession | internal/server/server.go:86-94 | the same for all outcomes of Validate, which may delete an expired record and no other |
| Engines.Engines.RevokeSession | internal/server/server.go:86-94 | the same for all outcomes of Revoke |
| Engines.Engines.Vanish | internal/server/server.go:86-94 | only session records vanish by themselves, and nothing else changes with them |
| Engines.Engines.RegisterService | internal/server/server.go:86-94 | a service registration changes the services and at most one TOTP record |
| Engines.Engines.DeleteService | internal/server/server.go:86-94 | a deletion changes the services and at most one TOTP record |
| Engines.Engines.RegisterCode | internal/server/server.go:86-94 | a TOTP registration changes that one TOTP record and the service that shares its key |

## Left out

- HTTP handlers, routing, middleware, audit log, user and admin records, CLI, TLS, configuration, clients: input, output and wiring.
- The inside of BadgerDB: modelled as an atomic ordered map. When a time to live ends is not modelled: the record may vanish at any time. Empty and over-long keys, which BadgerDB rejects, are ordinary failures of an unreliable store.
- The inside of the cryptographic primitives and of JSON and YAML; policy files arrive parsed, or as a failure to parse.
- Two writers on the same path at once, and two rotations of one key at once: the code takes no lock there, so the results assume one writer per path and one key operation per call.
- Calls of the store classes run one at a time; interleavings are treated in `KVInterleaving`, `Challenge` and `Session`, whose steps are the same record and table functions.
- Transit.ParsesIff: `%d` is read as a plain run of digits of any size; the library function behind it, `fmt.Sscanf`, also accepts a sign and leading spaces, and rejects numbers beyond 64 bits. No ciphertext that Encrypt prints has these.
- Transit.DecryptMeans: the same.
- Version counters do not wrap around.
- `SaveMasterKey`, `LoadMasterKey` and `GenerateMasterKey`: file input and output around the framing already modelled.
- The mutexes: each section under a lock is one action or one method. `GenerateChallenge` starts its sweep in the background; here the sweep is a call of its own.
- `Engine.Get`, `LoadPolicy`, `GetTOTP`, `GenerateSecret`: single lookups and updates beside the operations modelled.
- Policies are values: `SetPolicy` stores a pointer in the source, so later changes through that pointer are not modelled.
- A Badger failure that still applied its write is not modelled: a failed call changes nothing.
- The record fields that are never set (`KVEntry.DeletedAt`) and the unused `softDeleteTTL`.
- What encoding/json makes of a string is an arbitrary function; only the example run fixes it, for two paths.
- User and admin records, which have roots of their own in the same database.
