# Verified model of the VaultIC crypto-callback port and the RT1060 MPU setup

Two parts of the repository are modelled and proved.

**The VaultIC port** (`ccb_vaultic/ccb_vaultic.c`, `ccb_vaultic/ccb_vaultic.h`) sits between wolfCrypt and a stateful
crypto device. It keeps a use count, a growing SHA-256 message buffer, a cached AES key that should mirror a device
slot, and it advances the CBC register of the caller's `Aes` object. Every device call and every allocation may fail.

**The memory protection unit setup** (`BOARD_ConfigMPU` in `RT1060/board.c`) programs overlapping prioritised regions,
one of which has link-time base and size.

## How the files fit together

| file | content |
|---|---|
| `Bytes.dfy` | bytes, blocks, and the primitives (block cipher, hash, raw RSA) as function parameters |
| `Cbc.dfy` | CBC as a recursion, the block-indexed equations of section 6.2 of NIST SP 800-38A, sessions of chained calls |
| `Machine.dfy` | the port as a step function on values; the environment's choices are the `Env` of a step; runs of events |
| `Port.dfy` | the port as written: nullable buffers, an allocator with a set of live buffers, a device with sessions, handlers with loops and in-place updates, each proved to take the machine's step |
| `Resources.dfy` | invariant of every reachable state: buffers, opens and closes, use count; when a take succeeds and what a give leaves; atomic failures and fallback |
| `AesRuns.dfy` | AES over whole runs: cache coherence, non-interference, round trip |
| `Aliasing.dfy` | overlapping buffers and the register |
| `HashRuns.dfy` | SHA-256 over whole runs: what is hashed, whose bytes, copies, failures and retries |
| `Rsa.dfy` | RSA public operation: key used, exponent padding |
| `Answers.dfy` | the answer to every callback: return code, recorded code, what the call may change, written out literally |
| `Mpu.dfy` | region table, shift loop, size field, effective memory map |

A run is a sequence of events (`Init`, `Cleanup`, callbacks, wolfCrypt keying an `Aes` object, starting or copying a
`wc_Sha256` object) from a statically initialized context. Lemmas about runs hold for every sequence and every pattern
of failures, because each event that can fail carries an arbitrary `Env`. A callback event says whether wolfCrypt serves a declined CBC request in software, so one
theorem covers device calls, fallback, and any mix of both.

## Assumptions about what is not in the files

- Device: a successful put makes the slot hold the key; a failed put or delete leaves the slots as they were; whatever
  the slots held is arbitrary when the device is opened. `VltEncrypt` and `VltDecrypt` read their whole input before
  writing. A failed call may leave anything in its output buffer. A close call leaves the device closed.
- Vendor return codes: two values mean success, as `translateError` says; wolfCrypt's codes are named, not numbered.
- The cleared hash selector differs from SHA-256 and equals `WC_HASH_TYPE_NONE`.
- The cipher, its inverse, the hash and raw RSA are parameters; only round trips ask that decryption inverts encryption.
- wolfCrypt's software CBC works on the whole blocks of a request, for any overlap of its buffers.
- One context uses the device, and the context starts from the static initializer.
- Exporting an RSA key into the buffers provided fails if the exponent needs more than four bytes, or for any other
  reason wrapped up in wolfCrypt's return code; otherwise it yields the key's modulus and exponent.
- A `wc_Sha256` object stands for the bytes accepted on it since it was started or finalized, after those its original
  stood for if it was copied. Starting and copying are wolfCrypt's; the port is not told.
- MPU: `1 << 31` on a signed int (`RT1060/board.c:379`, reached for a size of 2^31) is taken to give 2^31 after the cast,
  as usual compilers do. Whether assertions are compiled in is a parameter.
- MPU: the regions are disabled before the configuration (reset state) where the final map is claimed.

## Where the code and its comments differ

The model follows the code.

- `ccbVaultIc_Init(NULL)` returns the initialization error, not the argument error the header announces
  (`ccb_vaultic/ccb_vaultic.c:209-231`, `ccb_vaultic/ccb_vaultic.h:61`).
- A callback on an unused context returns the argument error, not "unavailable"
  (`ccb_vaultic/ccb_vaultic.c:302-311`, `ccb_vaultic/ccb_vaultic.h:83`).
- The comment at `ccb_vaultic/ccb_vaultic.c:891` says the state is released for a copy; the test releases it for
  everything that is not a copy.

## Properties that fail, and exactly when they hold

- A cached key is not always the slot's key: the cache is filled before the upload is known to have worked.
  `PoisonedRunUsesWrongKey` gives a run that then works under the wrong key and reports success;
  `CoherentExactly` says the cache is right, and `ServedUnderOwnKeyExactly` that a caller's call ran under its own key,
  if and only if the last upload took. A second context on the same device
  has the same effect (`SecondContextPoisonsCache`).
- Decrypting does not always leave the last ciphertext block in the register: it is read from the input after the
  output was written. `DecryptChainsExactly` gives the exact layouts; `InPlaceRegister` says what in-place calls leave.
- A digest is not always of the finalizing object's own bytes: the buffer belongs to the context.
  `InterleavedStreamsMix`, `OriginalRobsCopy` and `CopyTaintsOriginal` show how objects mix and lose bytes;
  `PendingIsOwnExactly` and `OwnDigestExactly` say when a digest is the object's own.

## Model

| member | source | states |
|---|---|---|
| Port.ConstTimeMemcmp | ccb_vaultic/ccb_vaultic.c:170-182 | the OR-of-XORs accumulator is zero exactly when the compared bytes are equal, for every length |
| Port.Context.CacheMiss | ccb_vaultic/ccb_vaultic.c:1011-1013 | the test fires exactly when no key is cached, the lengths differ or some byte differs |
| Port.CcbInit | ccb_vaultic/ccb_vaultic.c:206-240 | NULL gives the initialization error; otherwise the machine's step on the context and device |
| Port.Context.Init | ccb_vaultic/ccb_vaultic.c:213-239 | takes the machine's step, loses no live buffer when it clears the context, opens only a closed device |
| Port.Context.Cleanup | ccb_vaultic/ccb_vaultic.c:242-274 | takes the machine's step; the last use frees exactly the owned buffers, each live and once, and closes the device |
| Port.HandleCmd | ccb_vaultic/ccb_vaultic.c:404-438 | register without a context initializes the static one and hands it back, unregister gives a use back, all else is declined |
| Port.CryptoCb | ccb_vaultic/ccb_vaultic.c:293-401 | on every request, the machine's step on context, device, allocator, object and caller memory together |
| Port.Context.HandleHash | ccb_vaultic/ccb_vaultic.c:745-906 | buffering by allocation, growth and copy, and finalizing by one or two device calls, refine the machine's message; foreign buffers stay live |
| Port.Context.Buffer | ccb_vaultic/ccb_vaultic.c:760-806 | the grown buffer is the old message followed by the request's bytes, or nothing changes when memory runs out |
| Port.Context.HandleCipher | ccb_vaultic/ccb_vaultic.c:969-1124 | cache test, refill, session and in-place register update refine the machine's cipher step for any overlap of the buffers |
| Port.Context.Refill | ccb_vaultic/ccb_vaultic.c:1019-1076 | the cached copy is replaced before the upload is attempted, in the order free, allocate, copy, delete, put |
| Port.Context.HandleRsa | ccb_vaultic/ccb_vaultic.c:463-586 | export of the request's key, padding, upload, start and operation under the slot's key refine the machine's RSA step, including the reported length |
| Port.Context.Pad | ccb_vaultic/ccb_vaultic.c:486-488 | the four-byte buffer holds the exponent behind zeros |
| Cbc.EncryptIsStandard | ccb_vaultic/ccb_vaultic.c:988-994 | the CBC function gives the one and only solution of the standard's encryption equations |
| Cbc.DecryptIsStandard | ccb_vaultic/ccb_vaultic.c:988-994 | likewise for the decryption equations |
| Cbc.ChunkingIsInvisible | ccb_vaultic/ccb_vaultic.c:979-1006 | two cuts of one message into calls give the same output and the same final register |
| Cbc.SessionsRoundTrip | ccb_vaultic/ccb_vaultic.c:995-1006 | encrypting with one cut and decrypting with any other recovers the message and ends on the same register |
| Resources.ReachableInv | ccb_vaultic/ccb_vaultic.c:199-274 | every reachable state: an unused context owns nothing, the device is open exactly while in use, buffers and opens balance |
| Resources.Conservation | ccb_vaultic/ccb_vaultic.c:206-274 | over every run opens equal closes plus one if in use, allocations equal frees plus owned buffers, nothing is left after the last use |
| Resources.UsesAreCounted | ccb_vaultic/ccb_vaultic.c:213-257 | in every run the use count is the uses counted from the calls and the codes of opening the device alone, no return code of the port entering the count |
| Resources.TakeExactly | ccb_vaultic/ccb_vaultic.c:206-240 | in every run a take succeeds exactly if there is a use already or the device opens (either success code), and is an initialization error otherwise; in use it only counts, a first use starts with nothing buffered and nothing cached |
| Resources.GiveExactly | ccb_vaultic/ccb_vaultic.c:242-274 | in every run a give succeeds; without a use it does nothing, with several it only counts down, and the last one clears the context, frees everything and closes the device |
| Resources.DeclinedIsTransparent | ccb_vaultic/ccb_vaultic.c:293-401 | a declined request changes no caller memory, no register, no buffered byte and nothing on the device |
| Answers.DispatchCodes | ccb_vaultic/ccb_vaultic.c:293-438 | the answer to every request no handler sees: argument error for a missing request or an unused context, declined or granted for commands, declined for unsupported algorithms |
| Answers.CbcRefused | ccb_vaultic/ccb_vaultic.c:969-985 | the answer to every CBC callback that ends before the device: no object is an argument error, a key that is not 128 bits is declined, less than a block succeeds; nothing changes |
| Answers.CbcAnswered | ccb_vaultic/ccb_vaultic.c:1008-1124 | for a 128-bit key and at least one block: declined exactly on a miss without memory, successful exactly if every device call needed succeeded, else a hardware error with the first failing code recorded; only the output range and one slot may change |
| Answers.SoftwareServesOtherKeys | ccb_vaultic/ccb_vaultic.c:974-977 | with a software fallback a key that is not 128 bits is always served as one CBC call, and the port is unchanged |
| Answers.HashAnswered | ccb_vaultic/ccb_vaultic.c:745-906 | the return and recorded code of every hash callback; slots and cached key never change |
| Answers.RsaAnswered | ccb_vaultic/ccb_vaultic.c:463-592 | the two public kinds succeed exactly if export, an exponent of at most four bytes, put, start and operation allow it, else the first failure decides; all other kinds are declined and change nothing; only the RSA slot is written, with the key of the request |
| AesRuns.CoherentExactly | ccb_vaultic/ccb_vaultic.c:1008-1077 | in every reachable state the cached key is the slot's key if and only if the most recent upload took |
| AesRuns.ReachableCoherent | ccb_vaultic/ccb_vaultic.c:1008-1077 | if every upload of the run took, the cache is right in the state the run reaches |
| AesRuns.FailedUploadPoisonsCache | ccb_vaultic/ccb_vaultic.c:1037-1076 | after a failed delete and put, the same call repeated succeeds and returns CBC under the old key |
| AesRuns.PoisonedRunUsesWrongKey | ccb_vaultic/ccb_vaultic.c:1008-1077 | a six-event run from the start whose last call on object 2 succeeds and returns CBC under object 1's key, for all keys, data and layouts |
| AesRuns.SecondContextPoisonsCache | ccb_vaultic/ccb_vaultic.c:1008-1077 | two contexts in use on one device: after a callback on the second, the first one's next callback succeeds under the second one's key |
| AesRuns.CallIsCbc | ccb_vaultic/ccb_vaultic.c:974-1124 | a completed call is one CBC call under the object's key and register and touches no other object: any layout and size in software, a safe layout and the object's key in the slot on the device |
| AesRuns.ServedUnderOwnKeyExactly | ccb_vaultic/ccb_vaultic.c:1008-1121 | in every run, what the device writes for a successful call is computed under the slot's key, and that is the object's own key if and only if the most recent upload took |
| AesRuns.NonInterference | ccb_vaultic/ccb_vaultic.c:947-1139 | in every run, if each call the device completed on an object since it was keyed has a safe layout and came when the most recent upload had taken, all calls completed on it form one CBC session under its own key and IV; calls in software, other objects and failures are unrestricted |
| AesRuns.UploadsSuffice | ccb_vaultic/ccb_vaultic.c:1064-1077 | safe layouts in a run whose uploads all took are enough for that premise |
| AesRuns.NoErrorsSuffice | ccb_vaultic/ccb_vaultic.c:1074-1076 | so are safe layouts in a run where no CBC request was answered with a hardware error, which callers can see |
| AesRuns.StreamIsOneShot | ccb_vaultic/ccb_vaultic.c:947-1139 | under the same premise an object used in one direction computes one-shot CBC of all it was given, whatever is interleaved |
| AesRuns.RunRoundTrip | ccb_vaultic/ccb_vaultic.c:947-1139 | under the same premise for both, one object encrypts, another decrypts, in any cuts and interleaving of one run: the message comes back |
| Aliasing.DecryptChainsExactly | ccb_vaultic/ccb_vaultic.c:1001-1004 | for every cipher and key, a buffer layout always leaves the last ciphertext block in the register of a context in use if and only if the output misses the last input block |
| Aliasing.InPlaceRegister | ccb_vaultic/ccb_vaultic.c:995-1006 | in place, on a cache hit or after an upload, the output is right both ways; encryption leaves the last ciphertext block, decryption the last plaintext block |
| HashRuns.BufferIsMessage | ccb_vaultic/ccb_vaultic.c:745-806 | over every run the buffer is the bytes accepted since the last release, read off the calls and their codes |
| HashRuns.HashRefinement | ccb_vaultic/ccb_vaultic.c:808-906 | a successful finalize returns the hash of all bytes accepted since the last release and of its own |
| HashRuns.HashCodeExactly | ccb_vaultic/ccb_vaultic.c:758-873 | which return code comes back, in every case; the update call matters only for the empty message |
| HashRuns.PendingIsOwnExactly | ccb_vaultic/ccb_vaultic.c:745-806 | in every reachable state and for every object, the buffer is the message the object stands for if and only if everything pending is credited to it (accepted on it, or on its original before the copy) and no release for another object, and no giving up, came while it stood for bytes |
| HashRuns.OwnDigestExactly | ccb_vaultic/ccb_vaultic.c:745-906 | a successful finalize hashes its own object's message, update by update, under exactly that condition |
| HashRuns.OneStreamGetsItsOwnDigest | ccb_vaultic/ccb_vaultic.c:745-906 | if objects are used only while everything pending is credited to them, and the buffer is released only while no other object stands for bytes, every digest is of the own message, copies included |
| HashRuns.InterleavedStreamsMix | ccb_vaultic/ccb_vaultic.c:745-806 | a run from the start with two interleaved streams: the first digest is of both messages; the second stream, with nothing foreign pending, has lost its bytes and gets the digest of the empty message |
| HashRuns.OriginalRobsCopy | ccb_vaultic/ccb_vaultic.c:884-902 | a run from the start: a copy finalized after its original gets the digest of the empty message |
| HashRuns.CopyTaintsOriginal | ccb_vaultic/ccb_vaultic.c:758-806 | a run from the start: bytes given to a copy enter the digest of its original |
| HashRuns.InertFinalizesAreTransparent | ccb_vaultic/ccb_vaultic.c:884-902 | leaving out all data-free finalizes that failed or were on an object whose copy flag is set changes no reply to any other event |
| HashRuns.FlaggedFinalizeIsTransparent | ccb_vaultic/ccb_vaultic.c:884-902 | a data-free finalize on a flagged copy, inserted anywhere in any run, changes no later reply, and if it succeeds returns the hash of what is pending there |
| HashRuns.FinalizeLeaves | ccb_vaultic/ccb_vaultic.c:884-902 | in every run a finalize on a flagged object leaves the bytes before and its own in the buffer whatever its code, and a successful one on no object or an unflagged one leaves nothing |
| HashRuns.CopyThenOriginal | ccb_vaultic/ccb_vaultic.c:884-902 | a run from the start: a copy finalized before its original, then the original, both get the digest of the original's bytes |
| HashRuns.RetryReturnsOwedDigest | ccb_vaultic/ccb_vaultic.c:828-873 | after a finalize the device failed, any later one without data returns the digest that was owed, whatever came in between short of new data, a release or the end of use |
| Rsa.LeadingZerosKeepValue | ccb_vaultic/ccb_vaultic.c:486-488 | zero padding of any width keeps the big-endian value |
| Rsa.RsaUsesThisKey | ccb_vaultic/ccb_vaultic.c:463-586 | after any run, whatever it left in the slots, success means the key of the request was used with its exponent's value intact; AES cache, AES slot and message are untouched |
| Mpu.Log2 | RT1060/board.c:370-373 | the shift loop ends at floor(log2 size), at 0 exactly for sizes 0 and 1, and never shifts by 32 |
| Mpu.LegalIsExact | RT1060/board.c:375-380 | the three assertions pass exactly for power-of-two sizes from 32 bytes up on a size-aligned base |
| Mpu.Unit.ConfigMpu | RT1060/board.c:247-401 | with assertions, halts exactly on an illegal section; otherwise programs the table and enables the unit; the size field decodes to a legal size exactly, and to the power of two below any other |
| Mpu.CoversExactly | RT1060/board.c:377-380 | a region covers its base-to-end interval if and only if the base is a multiple of the size |
| Mpu.DeciderDecides | RT1060/board.c:328-393 | for every address, which region number has the last word |
| Mpu.EffectiveMap | RT1060/board.c:328-396 | for every address outside the private bus a region decides with the documented attribute; the section is non-cacheable outside two windows and changes nothing outside itself |
| Mpu.AttributesByAddress | RT1060/board.c:328-396 | the attributes of every address outside the private bus, in register bits and in meaning: device windows, non-cacheable section, write-back RAM, read-only flash when executing in place, device space, and no access with execution forbidden everywhere else |

## Left out

- NonInterference: says nothing of calls served by the device with 16 bytes or more that are no multiple of 16; what the device does with them without padding is not in the files.
- RsaUsesThisKey: gives the output where the raw operation keeps the length of its input; otherwise the device's behaviour is not in the files.
- OwnDigestExactly: compares the accepted updates, not bytes or digests, since a foreign stream may contribute equal bytes and the hash may collide.
- Overflow of the use count and of the buffer length: both are unbounded here.
- Zeroing of freed key and message buffers, and constant running time: not functional behaviour.
- Debug printing, hex dumps and timing: output only.
- Calls from several threads: the source has no locking and the model takes one call at a time.
- Algorithms the dispatcher declines (other hashes and ciphers, private RSA, ECC, RNG, HMAC, CMAC): one declined request stands for them all.
- The mathematics of AES, SHA-256 and RSA: parameters.
- The bit positions of the MPU base and attribute registers: the macros that pack them are not in the file; regions are records of the same fields.
- Cache maintenance around the MPU setup, and the rest of the RT1060 board file: hardware pokes and fixed data.
- The test and benchmark drivers and the other example directories: straight-line calls into libraries that are not in the repository.
