# A verified model of the KMS host

The repository is a KMS host and its diagnostic client, written without I/O in its core: small deterministic
functions, and a few bounded tables that change one request at a time. This project models that core in Dafny and
proves what it is relied on for.

* **Cipher and modes** (`galois_field`, `field`, `polynomials`, `mix`, `state`, `rijndael`, `standard`, `cbc`,
  `cbc_mac`). Rijndael with 128- and 160-bit keys and the tampered version 6 schedule, on arrays; CBC with padding that
  is always added, on buffers; the version 4 tag. The field arithmetic is proved from the shift-and-add loop up: the
  loop multiplies polynomials modulo the one of FIPS-197 section 4.2, so it is a commutative ring, every byte but zero
  has one inverse, the search for it ends before its counter could overflow, and every step of a round is undone. What
  the box, the rounds and the key expansion compute is stated byte by byte against FIPS-197.
* **Dates** (`civil_date`, `activation_date`). The 32-bit era arithmetic, with every saturating step written out,
  against a calendar counted by months and years.
* **Counting** (`window`, `counting`, `counting_world`, `gate`). The table of caches, as objects and as a value, over
  whole runs; and two runs that differ only in what clients declare about themselves.
* **Drawing** (`entropy`, `key_blocks`, `activation_date`). Rejection sampling over an explicit stream of 32-bit
  words, and exact counts of the words that give each result.
* **Access, rate limits, events** (`access`, `rate_limiting`, `events`, `fleet`, `event_store`). CIDR blocks as
  intervals, token buckets over whole runs, the bounded log as a suffix of its history, its group-by view.
* **Client** (`discover`, `soak`, `charging`). The order of SRV records with the exact measure of each choice and of
  each whole order; any number of soak workers as interleaved steps; the charging loop.
* **Tables and slots** (`host_keys`, `time_slot`). The built index against a scan, the choice of host key, and the
  version 6 slot arithmetic.
* `bits`, `bytes`, `prelude`, `search`, `sorting` hold what several of these share.

A component that changes objects or buffers is a method or a class proved against a function, and the properties are
proved of the function. `hide` statements keep definitions out of proofs that do not need them.
`dafny verify dfyconfig.toml` checks the whole project.

Where the model fixes something the source leaves to its platform:

* Time is a number of nanoseconds that does not decrease over a run, as the contract at
  `crates/kmsrs-proto/src/sansio.rs:138` has it. A run that goes back in time is not excluded from the objects, only
  from the lemmas about runs.
* An entropy source is a sequence of 32-bit words and fails when they run out. A number drawn by rejection is
  therefore conditional on the stream holding an accepted word.
* SHA-256 and HMAC are any two functions with 32-byte results.

## Where the code and its documentation differ

The model follows the code in each case.

* `crates/kmsrs-client/src/discover.rs:115-119` expects a record of weight zero to keep a small chance of being
  chosen. It is chosen only when it is the first record left of its priority; `ReachableIff` gives the condition,
  `ZeroWeightUnreachable` two concrete records, and `ZeroNeverOvertakes` what it means for a whole group.
* `crates/kmsrs-proto/src/entropy.rs:128-131` handles the range of all 32-bit words by a sum that would wrap to zero.
  The sum saturates instead, so the branch is never taken and the last word of that range is never drawn;
  `RangeIsReached` says that no other range loses anything.
* `crates/kmsrs-policy/src/identity.rs:286-294` says that a total of key IDs past 32 bits is far from anything real. If
  the blocks together hold all 2^32 key IDs the last one is never drawn, as the total saturates there, or already in
  `crates/kmsrs-db/src/tables.rs:101-105` when it is one block. `EveryKeyIdIsDrawn` says that nothing is lost
  otherwise; `TwoBlocksLoseTheLast` has two blocks, neither of them saturated, that lose it.
* `crates/kmsrs-db/src/date.rs:81-109` clips for days past the end of the 32-bit count less 719,468, and before its
  start; the round trips and the day of the year are stated with exactly those bounds.
* `crates/kmsrs-crypto/src/v6.rs:58-76` names the slots before and after; as the module's own text says, their values
  are not those of any neighbouring slot. `SlotsAgreeIff` has it for all timestamps.

## Model

| member | source | states |
|---|---|---|
| GaloisField.GfMul | crates/kmsrs-crypto/src/rijndael.rs:112-122 | The shift-and-add loop computes the product, for all pairs of bytes. |
| Polynomials.MulIsRemainder | crates/kmsrs-crypto/src/rijndael.rs:96-122 | That product is the product of the two polynomials over GF(2), less a multiple of the AES modulus 0x11B. |
| GaloisField.MulCommutes | crates/kmsrs-crypto/src/rijndael.rs:112-122 | The product does not depend on the order of its factors, though the loop treats them differently. |
| GaloisField.MulAssociates | crates/kmsrs-crypto/src/rijndael.rs:112-122 | The product is associative. |
| GaloisField.MulXorRight | crates/kmsrs-crypto/src/rijndael.rs:112-122 | The product distributes over exclusive or. |
| Field.InverseIsInverse | crates/kmsrs-crypto/src/rijndael.rs:124-141 | Every byte but zero times its 254th power is one. |
| Field.InverseUnique | crates/kmsrs-crypto/src/rijndael.rs:124-141 | A byte has no other inverse, so the first one a search finds is the only one. |
| Field.GfInverse | crates/kmsrs-crypto/src/rijndael.rs:129-141 | The search returns the inverse, and zero for zero; its candidate never passes the inverse, so the increment does not overflow. |
| State.BuildSbox | crates/kmsrs-crypto/src/rijndael.rs:149-163 | The loop fills the table with the affine image of each inverse. |
| State.SBoxIsPermutation | crates/kmsrs-crypto/src/rijndael.rs:149-177 | No two entries of the substitution box are equal. |
| State.InvertPermutation | crates/kmsrs-crypto/src/rijndael.rs:166-174 | The loop computes the table in which later indices overwrite earlier ones. |
| State.InvertedTableAt | crates/kmsrs-crypto/src/rijndael.rs:165-174 | For any table without repetition, the inverted table leads each entry back to its index. |
| State.InvertedSBox | crates/kmsrs-crypto/src/rijndael.rs:176-180 | The inverted substitution box is the box of the inverse affine map and the field inverse, at every byte. |
| State.SubstituteInverts | crates/kmsrs-crypto/src/rijndael.rs:347-351 | Substituting by one box and then the other gives the block back, both ways round. |
| State.ShiftRowsInverts | crates/kmsrs-crypto/src/rijndael.rs:356-373 | The two row shifts undo each other, both ways round. |
| State.MixColumnsInverts | crates/kmsrs-crypto/src/rijndael.rs:377-396 | The two column mixes undo each other on every block, both ways round. |
| State.AddRoundKey | crates/kmsrs-crypto/src/rijndael.rs:340-344 | In place, every byte is combined with the round key's. |
| State.Substitute | crates/kmsrs-crypto/src/rijndael.rs:347-351 | In place, every byte is replaced by its table entry. |
| State.ShiftRowsInPlace | crates/kmsrs-crypto/src/rijndael.rs:356-363 | In place, row r moves left by r columns. |
| State.InverseShiftRowsInPlace | crates/kmsrs-crypto/src/rijndael.rs:366-373 | In place, row r moves right by r columns. |
| State.MixColumnsInPlace | crates/kmsrs-crypto/src/rijndael.rs:377-385 | In place, column by column, the mix of the whole block. |
| State.InverseMixColumnsInPlace | crates/kmsrs-crypto/src/rijndael.rs:388-396 | In place, column by column, the inverse mix of the whole block. |
| Rijndael.EncryptBlock | crates/kmsrs-crypto/src/rijndael.rs:298-318 | The in-place rounds compute the encryption of the block they start from. |
| Rijndael.DecryptBlock | crates/kmsrs-crypto/src/rijndael.rs:321-336 | The in-place reversed rounds compute its decryption. |
| Rijndael.DecryptUndoesEncrypt | crates/kmsrs-crypto/src/rijndael.rs:298-336 | For every schedule and block, decrypting an encrypted block gives it back. |
| Rijndael.EncryptUndoesDecrypt | crates/kmsrs-crypto/src/rijndael.rs:298-336 | And encrypting a decrypted one. |
| Rijndael.EncryptInjective | crates/kmsrs-crypto/src/rijndael.rs:298-318 | No two blocks have one encryption. |
| Standard.SBoxBits | crates/kmsrs-crypto/src/rijndael.rs:149-163 | Each bit of an entry is the sum of five bits of whatever byte inverts its index (zero for zero) and a bit of 0x63. |
| Standard.RoundBytes | crates/kmsrs-crypto/src/rijndael.rs:298-318 | Each byte after a round is the two, three, one and one fold sum of the substituted bytes its shifted column takes in, and the key byte. |
| Standard.EncryptIsStandard | crates/kmsrs-crypto/src/rijndael.rs:298-318 | Encryption is the block under the first round key, such a round for each key but the last, and a last round without the mix. |
| Rijndael.Expand | crates/kmsrs-crypto/src/rijndael.rs:257-295 | Every byte of every round key is what the recurrence of FIPS-197 section 5.2 says: the key first, then the byte as many words back combined with the last word, which is rotated, substituted and given a power of x at each multiple of the key length; zeros after the last round key. Every index is in bounds. |
| Rijndael.ScheduleIsStandard | crates/kmsrs-crypto/src/rijndael.rs:257-295 | The schedule as a function is that recurrence, byte by byte, for keys of four and of five words. |
| Rijndael.Aes128 | crates/kmsrs-crypto/src/rijndael.rs:216-218 | A 128-bit key gives that schedule for four words, valid and of ten rounds. |
| Rijndael.Rijndael160 | crates/kmsrs-crypto/src/rijndael.rs:226-228 | A 160-bit key gives that schedule for five words, valid and of eleven rounds. |
| Rijndael.Aes128TweakedForV6 | crates/kmsrs-crypto/src/rijndael.rs:238-244 | The tampered schedule is valid and has ten rounds. |
| Rijndael.TweakIsThreeBytes | crates/kmsrs-crypto/src/rijndael.rs:230-244 | It is the AES-128 schedule with 0x73, 0x09 and 0xE4 on the first byte of round keys 4, 6 and 8, which changes these bytes and no other. |
| Rijndael.ExpansionReverses | crates/kmsrs-crypto/src/rijndael.rs:273-286 | Any run of key-length words of the expansion determines the key: nothing of it is lost on the way. |
| Cbc.PaddedLen | crates/kmsrs-crypto/src/cbc.rs:97-119 | The padded length is the next greater multiple of 16, and absent exactly when it would not fit in 64 bits. |
| Cbc.DecryptBuffer | crates/kmsrs-crypto/src/cbc.rs:133-173 | Each error is returned for exactly its inputs and in order, with the destination untouched; else the destination holds the CBC decryption and is unchanged past it. |
| Cbc.EncryptInPlace | crates/kmsrs-crypto/src/cbc.rs:184-219 | Returns the padded length or the error that fits; the buffer then holds the CBC encryption of its padded plaintext and is unchanged past it, or wholly unchanged. |
| Cbc.StripExact | crates/kmsrs-crypto/src/cbc.rs:235-253 | Stripping yields a body if and only if the input is that body and 1 to 16 bytes each equal to their number; it says empty only of nothing. |
| Cbc.PaddedBytes | crates/kmsrs-crypto/src/cbc.rs:97-119 | Padding adds 16 bytes less the length past a multiple of 16, each of them equal to their number. |
| Cbc.StripUndoesPad | crates/kmsrs-crypto/src/cbc.rs:97-119 | Stripping a padded plaintext gives the plaintext. |
| Cbc.RoundTrip | crates/kmsrs-crypto/src/cbc.rs:133-253 | Padding, encrypting, decrypting and stripping gives every plaintext back, under every schedule and IV. |
| Cbc.EncryptUndoesCbc | crates/kmsrs-crypto/src/cbc.rs:133-219 | Encrypting a decryption under the same IV gives the ciphertext back. |
| Cbc.DecryptedBytes | crates/kmsrs-crypto/src/cbc.rs:133-173 | Each byte of a decryption is that of its decrypted block combined with the block of ciphertext before, or with the IV, or with zero under the null IV. |
| Cbc.NullIvDecrypt | crates/kmsrs-crypto/src/cbc.rs:65-84 | Decrypting an IV and a ciphertext together under the null IV gives the decrypted IV, then the decryption under that IV. |
| Cbc.NullIvEncrypt | crates/kmsrs-crypto/src/cbc.rs:65-84 | Encrypting a decrypted IV and a plaintext together under the null IV gives the IV, then the padded encryption under that IV. |
| Cbc.DecryptionForgetsIv | crates/kmsrs-crypto/src/cbc.rs:68-75 | Past the first block a decryption does not depend on the IV. |
| Cbc.MaskedComplementFills | crates/kmsrs-crypto/src/cbc.rs:97-109 | The complement of a length in 64 bits, masked with 15 bit by bit, and one more byte fill the length up to a multiple of 16. |
| CbcMac.Tag | crates/kmsrs-crypto/src/mac.rs:62-91 | The loop over whole blocks and the final padded block computes the tag. |
| CbcMac.MacIsLastCbcBlock | crates/kmsrs-crypto/src/mac.rs:62-91 | The tag is the last block of the zero-IV CBC encryption of the message and its padding. |
| CbcMac.MarkerLast | crates/kmsrs-crypto/src/mac.rs:77-87 | The padding is the byte 0x80 and zeros. |
| CbcMac.IsoPaddingInjective | crates/kmsrs-crypto/src/mac.rs:77-87 | Messages of one padding are equal. |
| CbcMac.TailsSeparate | crates/kmsrs-crypto/src/mac.rs:62-91 | Two messages with the same whole blocks have the same tag if and only if their tails are equal. |
| CivilDate.NewIsExists | crates/kmsrs-db/src/date.rs:50-58 | The constructor accepts exactly the dates of the Gregorian calendar, as they are. |
| CivilDate.DaysSinceEpochIsCivil | crates/kmsrs-db/src/date.rs:81-109 | For every date the day number is the calendar's count, held between the ends of what the 32-bit steps can carry. |
| CivilDate.DateFromDays | crates/kmsrs-db/src/date.rs:118-168 | For every day number whose shift fits, the date computed exists and the calendar counts it as that day. |
| CivilDate.DaysRoundTrip | crates/kmsrs-db/src/date.rs:81-168 | A day number comes back exactly when it is not among the last 719,468; the date computed is one the constructor accepts in every case. |
| CivilDate.DateRoundTrip | crates/kmsrs-db/src/date.rs:81-168 | A date comes back exactly when its calendar count is in range. |
| CivilDate.DaysInOrder | crates/kmsrs-db/src/date.rs:81-109 | Day numbers in range are in the order of their dates. |
| CivilDate.NextDayCounts | crates/kmsrs-db/src/date.rs:81-109 | The next calendar day's number is one more exactly when both are in range. |
| ActivationDate.DayOfYearExact | crates/kmsrs-db/src/date.rs:174-183 | The day of the year is the earlier months' lengths and the day, exactly when the year's start and the date are in range or it is 1 January. |
| ActivationDate.DrawnInWindow | crates/kmsrs-policy/src/identity.rs:326-348 | All draws lie between the release and today if and only if the release is not after today and neither is on the wrong side of the range. |
| ActivationDate.EveryDayIsDrawnOnce | crates/kmsrs-policy/src/identity.rs:326-348 | Each day of the window is given by one offset and no other, up to the widest 32-bit span. |
| ActivationDate.DateDrawIsUniform | crates/kmsrs-policy/src/identity.rs:326-348 | Each day from release to today is given by the same number of 32-bit words, a power of two, and no other day by any. |
| ActivationDate.DrawActivationDate | crates/kmsrs-policy/src/identity.rs:326-348 | The date is that of the first accepted word; with no release date, or no such word, entropy is unavailable. |
| Counting.ObservedIsExpected | crates/kmsrs-policy/src/counting.rs:310-352 | One sighting, as expiry, renewal, insertion and eviction make it, gives the newest 200 live machines by last sighting of the longer history. |
| Counting.ExpectedMeans | crates/kmsrs-policy/src/counting.rs:310-352 | That function holds exactly the sightings that are the last of their machine, less than thirty days old, and among the newest 200 such. |
| Counting.OutcomeAccounts | crates/kmsrs-policy/src/counting.rs:331-352 | The outcome says renewed exactly of a machine that was there, and accounts for the change of size after expiry. |
| CountingWorld.Bucket.Expire | crates/kmsrs-policy/src/counting.rs:314-324 | Removes from the front entries thirty days old or older, counts them, and stops at the first that is younger. |
| CountingWorld.Bucket.Record | crates/kmsrs-policy/src/counting.rs:331-351 | Moves a known machine to the back; else adds it there, dropping the oldest of a full cache. |
| CountingWorld.ClientCounts.BucketFor | crates/kmsrs-policy/src/counting.rs:277-307 | Finds the application's bucket, or adds one, or takes the first of those whose newest entry is oldest; all other buckets stay as they were. |
| CountingWorld.ClientCounts.Observe | crates/kmsrs-policy/src/counting.rs:181-238 | The whole table and the view returned are those of the specification, for any table of distinct objects. |
| CountingWorld.ObserveKeepsSlots | crates/kmsrs-policy/src/counting.rs:181-307 | Applications stay distinct and at most eight, and only the sighting's own slot changes. |
| CountingWorld.PlaceIsStalest | crates/kmsrs-policy/src/counting.rs:277-307 | A sighting goes to its application's slot, to a new one while there are fewer than eight, or else in place of the first of those whose newest entry is oldest. |
| CountingWorld.WorldIsHistory | crates/kmsrs-policy/src/counting.rs:181-352 | In every run with a clock that does not go back, each slot holds what its application's sightings since the slot was made say. |
| CountingWorld.CacheIsFunctionOfSightings | crates/kmsrs-policy/src/counting.rs:181-352 | With at most eight applications in the run, it is a function of that application's sightings alone. |
| CountingWorld.CountedExactly | crates/kmsrs-policy/src/counting.rs:181-352 | So in a run with at most eight applications a machine is counted just when its last sighting is less than thirty days older than the application's newest, and among the newest 200 such. |
| CountingWorld.ViewAccounts | crates/kmsrs-policy/src/counting.rs:181-238 | The reply names the entries thirty days old or older that went, renewed just when the machine is among the others, an eviction at 200, the size of the slot, and its count held between the demand and twice the demand up to 100, and by 200 above. |
| CountingWorld.ReportedBounds | crates/kmsrs-policy/src/counting.rs:205-230 | The count reported is the cache size held between N and twice N (twice one for N of zero) up to 100, the cache size itself above, and always from 1 to 200. |
| Gate.Evaluate | crates/kmsrs-policy/src/gate.rs:202-280 | Granted exactly when the product is not listed or is of a volume kind (or the build takes others), released (or the build takes previews) and of the claimed application or none, and the clock is within four hours (or the build takes any). Each refusal names the first of these that fails, and leaves the counts; a grant counts the sighting and carries its view, the identity and host key selected and the default intervals. The skew observed is the difference of the clocks whatever the gates say. |
| Gate.DemandNeverReachesTheWorld | crates/kmsrs-policy/src/gate.rs:202-280 | Two runs alike but for demand, name, SKU, licence status, grace and client kind have the same counts at every step and the same decisions but for the count reported and the flag for an unusual demand. |
| Gate.WorldBounded | crates/kmsrs-policy/src/gate.rs:202-280 | In every run no application's cache exceeds 200. |
| Gate.RepliesInBounds | crates/kmsrs-policy/src/gate.rs:202-280 | Every count granted in a run depends on the cache size and that request's demand, in the stated bounds, and the demand is flagged exactly above 100. |
| Gate.WorldIsRunOfGranted | crates/kmsrs-policy/src/gate.rs:202-280 | The counts after any run of requests are those of the sightings of the granted ones alone. |
| Gate.GatedWorldIsHistory | crates/kmsrs-policy/src/gate.rs:202-280 | So with a clock that does not go back each slot holds what its application's granted sightings since the slot was made say, in at most eight slots. |
| Entropy.MaskingIsRemainder | crates/kmsrs-proto/src/entropy.rs:95-109 | A word masked bit by bit is its remainder by the mask plus one. |
| Entropy.MaskIsTight | crates/kmsrs-proto/src/entropy.rs:95-102 | The mask plus one is the least power of two not below the bound, so less than twice it. |
| Entropy.Source.UniformBelow | crates/kmsrs-proto/src/entropy.rs:95-109 | Returns the masked first accepted word and consumes up to it; fails exactly when none is left. |
| Entropy.Source.UniformInInclusiveRange | crates/kmsrs-proto/src/entropy.rs:120-134 | Low when the range is empty and no word consumed; else low plus the draw below the saturated span, in range. |
| Entropy.DrawIsUniform | crates/kmsrs-proto/src/entropy.rs:95-109 | Of the 2^32 words every value below the bound is given by the same number, a power of two. |
| Entropy.RangeIsReached | crates/kmsrs-proto/src/entropy.rs:120-134 | Every value of a range can be drawn if and only if the range is not all of the words. |
| KeyBlocks.ReadKeyBlocks | crates/kmsrs-db/build.rs:511-548 | Blocks are read sorted and each once, and refused exactly when one runs backwards. |
| KeyBlocks.SortedOnceIsSorted | crates/kmsrs-db/build.rs:537-538 | Sorting pairs and dropping repeats puts the starts in order, loses no block, adds none and keeps none twice. |
| KeyBlocks.BlocksOverlap | crates/kmsrs-db/build.rs:553-564 | On sorted blocks, nothing is found if and only if no two share a key ID; a start found does overlap the block before. |
| KeyBlocks.WalkIsBijection | crates/kmsrs-policy/src/identity.rs:300-307 | On sorted blocks that share no key ID, offset and key ID determine each other, between the offsets below the total and the union. |
| KeyBlocks.KeyDrawIsUniform | crates/kmsrs-policy/src/identity.rs:282-307 | On such blocks each key ID of the union is given by the same number of words and each one outside it by none. |
| KeyBlocks.EveryKeyIdIsDrawn | crates/kmsrs-policy/src/identity.rs:282-307 | Every key ID of the union is drawn by some word if and only if they number at most 2^32 - 1. |
| KeyBlocks.TwoBlocksLoseTheLast | crates/kmsrs-policy/src/identity.rs:282-307 | Key ID 0 and a block of all the others pass every check of the build, and no word draws the last key ID. |
| KeyBlocks.DrawKeyId | crates/kmsrs-policy/src/identity.rs:282-315 | From any list of blocks, returns the key ID of the first accepted word; unavailable without blocks or without such a word. |
| Access.CidrIsInterval | crates/kmsrs-policy/src/access.rs:83-148 | A prefix rule matches exactly the canonical addresses of its family in one interval of numbers, and nothing when too long. |
| Access.LongerMatchesLess | crates/kmsrs-policy/src/access.rs:109-148 | What a longer prefix matches a shorter one matches. |
| Access.RangeIsInterval | crates/kmsrs-policy/src/access.rs:83-105 | A range matches exactly the canonical addresses of its family between its ends, and a single address itself. |
| Access.CanonicalIsUnmapped | crates/kmsrs-policy/src/access.rs:45-50 | An IPv4-mapped address becomes its IPv4 address and every other stays as it is. |
| Access.CanonicalIdempotent | crates/kmsrs-policy/src/access.rs:45-50 | Making an address canonical twice is making it so once. |
| Access.CheckDecides | crates/kmsrs-policy/src/access.rs:189-197 | An address is let in if and only if no deny rule matches and the allow list is empty or matches; it is denied exactly when a deny rule matches, and else not allowed; only the canonical address counts. |
| Access.MappedCheck | crates/kmsrs-policy/src/access.rs:45-50 | An IPv4 address and its mapped form are decided alike. |
| RateLimiting.RateLimiter.Admit | crates/kmsrs-policy/src/access.rs:297-332 | The bucket of the source, full if new, gets the rate for each whole second since its last refill, up to the burst, and gives a token if it has one; the reply says how many are left, or one second. Table and reply are those of the specification, saturations included. |
| RateLimiting.RateLimiter.BucketFor | crates/kmsrs-policy/src/access.rs:341-374 | Finds the key's bucket, or adds a full one, or puts it in place of the first of the least recently seen. |
| RateLimiting.RequestKeepsTable | crates/kmsrs-policy/src/access.rs:297-374 | Keys stay distinct, the table within its bound, other buckets as they were; a displaced one was the stalest of a full table. |
| RateLimiting.RefillIsExact | crates/kmsrs-policy/src/access.rs:305-325 | The saturating refill is the exact one: whole seconds times the rate, up to the burst, counted as a refill only if it adds something. |
| RateLimiting.RequestInNumbers | crates/kmsrs-policy/src/access.rs:297-332 | A request in numbers: the tokens it finds, the token it takes, what the bucket is left with, and the reply. |
| RateLimiting.TokensConserved | crates/kmsrs-policy/src/access.rs:305-331 | Over a bucket's life, admissions and tokens left never exceed the burst and the income since it was made. |
| RateLimiting.BurstHonoured | crates/kmsrs-policy/src/access.rs:305-331 | The first requests of a bucket, up to the burst, are all admitted. |
| RateLimiting.WindowBounded | crates/kmsrs-policy/src/access.rs:305-331 | Admissions in any stretch never exceed the burst and the rate for each whole second and one more. |
| RateLimiting.TableIsHistory | crates/kmsrs-policy/src/access.rs:297-374 | In every run each bucket has lived exactly the requests for its key since it was made. |
| RateLimiting.AnswersAreAdmissions | crates/kmsrs-policy/src/access.rs:297-374 | The requests a run let in for a key since its bucket was made are as many as the bucket's replay admits, from any of them on. |
| RateLimiting.RunBounded | crates/kmsrs-policy/src/access.rs:297-374 | So both bounds hold of the requests let in, for every key in the table after any run. |
| RateLimiting.IdleSecondsEarn | crates/kmsrs-policy/src/access.rs:297-374 | In a run, after k whole seconds without a refill the next requests of a source are all let in, as many as the burst and k times the rate allow, whatever others do between. |
| RateLimiting.OthersLeaveBucket | crates/kmsrs-policy/src/access.rs:341-374 | Requests for other keys leave a bucket as it is, unless it is gone. |
| RateLimiting.RetryKept | crates/kmsrs-policy/src/access.rs:320-325 | Waiting the time named helps if and only if burst and rate are at least one; the time is always one second. |
| RateLimiting.RetryHonoured | crates/kmsrs-policy/src/access.rs:297-374 | In a run, a refused source that waits that long is admitted whatever others did meanwhile and however often it was itself refused meanwhile, exactly under those limits or, with a burst, when its bucket was displaced. |
| EventStore.EventLog.constructor | crates/kmsrs-policy/src/events.rs:207-215 | A new log is empty and holds at least one event. |
| EventStore.EventLog.Expire | crates/kmsrs-policy/src/events.rs:283-294 | Removes from the front events as old as the retention or older, up to the first that is younger, and counts them as dropped for age. |
| EventStore.EventLog.Record | crates/kmsrs-policy/src/events.rs:221-257 | The log after expiry, eviction and the new event, each of whose fields is that of the request, the peer, the outcome or the observations, and the event's sequence number. |
| EventStore.EventLog.RecordGrant | crates/kmsrs-policy/src/events.rs:260-277 | The log after recording a grant as its host key and counts, as for any event. |
| Events.LogIsSuffix | crates/kmsrs-policy/src/events.rs:207-294 | In every run the log is the last events, up to its capacity, of those retention leaves, and so a suffix of the history. |
| Events.LogHolds | crates/kmsrs-policy/src/events.rs:207-294 | In every run an event is in the log just when it is one of the last, up to the capacity, and younger than the retention at the last operation or the one just recorded. |
| Events.SequencesConsecutive | crates/kmsrs-policy/src/events.rs:221-257 | Sequence numbers run without a gap to the last one given out, and an event just recorded is there. |
| Events.EventsAccounted | crates/kmsrs-policy/src/events.rs:319-332 | Events recorded are those held, those dropped for room and those dropped for age. |
| EventStore.EventLog.Clients | crates/kmsrs-policy/src/events.rs:385-431 | The one-pass loop, the sort and the cut compute the first rows of the fleet view. |
| Fleet.FleetIsGroupBy | crates/kmsrs-policy/src/events.rs:385-431 | The fleet view has one row for each machine and SKU of the log and no other, each with its group's counts, first and last fields, strictly by last sequence, and the counts add up to the log's. |
| Fleet.RowSays | crates/kmsrs-policy/src/events.rs:385-431 | Each row's fields are those of the first and the last event of its machine and SKU. |
| Fleet.RowCounts | crates/kmsrs-policy/src/events.rs:385-431 | Its counts are the numbers of such events and of those activated. |
| Fleet.FleetOfRun | crates/kmsrs-policy/src/events.rs:207-431 | The same of the log any run leaves. |
| EventStore.EventLog.DistinctMachines | crates/kmsrs-policy/src/events.rs:339-351 | The number of machines with an activated event for the application. |
| Discover.Order | crates/kmsrs-client/src/discover.rs:121-161 | The nested draining loops compute the ordering that `DrainedTakes` and `GroupsInTurn` describe, whatever the draws return. |
| Discover.OrderIsPermutation | crates/kmsrs-client/src/discover.rs:121-161 | Every record is tried once, and none before one of a lower priority number. |
| Sorting.SortIsStable | crates/kmsrs-client/src/discover.rs:122-124 | The sort orders, keeps the records, and leaves those of equal priority in the order they came. |
| Discover.ChosenIsStretch | crates/kmsrs-client/src/discover.rs:137-155 | A record is chosen exactly by the draws past the weights before it and up to its own, the first also by zero and the last by all beyond; for every group and draw. |
| Discover.SelectionMeasure | crates/kmsrs-client/src/discover.rs:137-155 | Of the total and one draws, the first record is taken by its weight and one, any other by its weight. |
| Discover.DrainedTakes | crates/kmsrs-client/src/discover.rs:137-156 | The order starts with the record in whose stretch of the running weights the first draw lands, and goes on with the others by the other draws. |
| Discover.GroupsInTurn | crates/kmsrs-client/src/discover.rs:125-160 | Each priority is emptied by the draws it asks for, before the next. |
| Discover.OrderMeasure | crates/kmsrs-client/src/discover.rs:125-160 | The draws counted for an order of a group are as many as the product, over the records in turn, of the weight and one more for the first left. |
| Discover.DrawsForMeans | crates/kmsrs-client/src/discover.rs:125-160 | Those counted are exactly the draws in bounds that give that order, for distinct records. |
| Discover.BoundIsExact | crates/kmsrs-client/src/discover.rs:138-145 | The draw is asked for exactly those draws if and only if the total is below 2^32 - 1; past that for one more than the wrapped total, held to 32 bits. |
| Discover.ReachableIff | crates/kmsrs-client/src/discover.rs:137-155 | A record can be taken next if and only if it has weight or is the first left. |
| Discover.ZeroWeightUnreachable | crates/kmsrs-client/src/discover.rs:113-119 | Two records of which the second, of weight zero, is taken by no draw in range. |
| Discover.ZeroNeverOvertakes | crates/kmsrs-client/src/discover.rs:113-157 | With draws in bounds a record of weight zero comes after all that arrived before it at its priority. |
| Soak.RunIsBalanced | crates/kmsrs-client/src/load.rs:126-236 | In every interleaving the plans left cover the requests left and the claims held, and each request is left, in flight or counted. |
| Soak.NothingLost | crates/kmsrs-client/src/load.rs:203-222 | A worker that has claimed finds a plan, and one that comes to exchange has a session: the two branches that would lose a request are never taken. |
| Soak.PlansTakenInOrder | crates/kmsrs-client/src/load.rs:203-205 | Plans taken and plans left are all the plans, in order. |
| Soak.RefusalPossible | crates/kmsrs-client/src/load.rs:207-234 | In every run a worker can be refused a connection just when it is told to reconnect or its last try of the network did not go well. |
| Soak.ReportFollows | crates/kmsrs-client/src/load.rs:238-259 | At every point the report counts the successes and failures so far, with the maximum count and the first failure. |
| Soak.HighestIsMaximum | crates/kmsrs-client/src/load.rs:245 | That maximum is the count of some success and below none, and zero without any. |
| Soak.EveryRunEnds | crates/kmsrs-client/src/load.rs:173-236 | No interleaving is longer than five steps for each request and one for each worker. |
| Soak.NoDeadlock | crates/kmsrs-client/src/load.rs:173-236 | Until all workers have finished some worker can move. |
| Soak.RunAccounts | crates/kmsrs-client/src/load.rs:126-151 | When all have finished: each plan taken once, completed and failed add up to the requests, and count, maximum, first failure and set of ePIDs are those of the exchanges made. |
| Soak.Cells.Claim | crates/kmsrs-client/src/load.rs:194-201 | The atomic update takes one request, or none when there is none. |
| Soak.Cells.NextPlan | crates/kmsrs-client/src/load.rs:203-205 | Takes the next plan under the lock. |
| Soak.Cells.RecordSuccess | crates/kmsrs-client/src/load.rs:243-246 | Counts a success and raises the maximum, under one lock. |
| Soak.Cells.RecordEpid | crates/kmsrs-client/src/load.rs:247-249 | Adds the ePID, under another. |
| Soak.Cells.RecordFailure | crates/kmsrs-client/src/load.rs:252-259 | Counts a failure and keeps the first. |
| Soak.Runner.Perform | crates/kmsrs-client/src/load.rs:193-235 | A worker's action on the shared cells leaves the state the step system says, for every enabled step. |
| Soak.Run | crates/kmsrs-client/src/load.rs:126-151 | On the cells, in any interleaving that ends, the report counts every planned request once, with the maximum, the first failure and the number of distinct ePIDs of the exchanges made. |
| Charging.Run | crates/kmsrs-client/src/load.rs:319-361 | Ends with the first reply that fails, reaches the threshold or is the third in a row that does not rise, and says so; else saturated at the best count. |
| Charging.OutcomeMeans | crates/kmsrs-client/src/load.rs:319-361 | Each ending in terms of the replies alone: the first failure after counts below the threshold; the first count that reaches it and the number of requests; or the highest count, at the limit or at the first three in a row that do not rise. |
| Charging.EndsWithin | crates/kmsrs-client/src/load.rs:319-361 | Charging ends within three requests for each client of the threshold, whatever the limit and the replies. |
| HostKeys.Build | crates/kmsrs-db/build.rs:494-735 | Tables are written exactly when no key block runs backwards, activation IDs are distinct, there is a host key, positions fit in 16 bits, and each host key has blocks and none that overlap; then host keys are in order and the index is right for every counted ID. |
| HostKeys.HostKeysInOrder | crates/kmsrs-db/build.rs:611-680 | The host keys written are those of the rows, each once, by ascending activation ID. |
| HostKeys.BuiltKeysDrawUniformly | crates/kmsrs-db/build.rs:511-680 | The key IDs of every host key so written are drawn uniformly from the union of its blocks, while they number at most 2^32 - 1. |
| HostKeys.CountedIdsOf | crates/kmsrs-db/build.rs:710-735 | The index built by pushing, sorting and removing duplicates has its rows in order, each the ascending positions of the host keys that count it, and a row for each ID counted. |
| HostKeys.ScanFacts | crates/kmsrs-db/build.rs:635-640 | A scan of the host keys gives the ascending positions of exactly those that count an ID. |
| HostKeys.CsvlksCounting | crates/kmsrs-db/src/query.rs:68-74 | The binary search of the index gives what a scan gives, for every counted ID. |
| HostKeys.Select | crates/kmsrs-policy/src/identity.rs:142-199 | Resolved exactly when some host key counts the product, to the one that counts fewest and then comes first; else the application's host key that counts most and then comes first, or the first of all. |
| HostKeys.SelectIdentity | crates/kmsrs-policy/src/identity.rs:142-199 | The identity returned is the one drawn for the host key so chosen, for any table of one identity for each host key. |
| HostKeys.SelectionInNumbers | crates/kmsrs-policy/src/identity.rs:142-199 | The choice in numbers of counted IDs: the least among the host keys that count the product, or the greatest among those of the application, ties to the first. |
| HostKeys.SelectionUnique | crates/kmsrs-policy/src/identity.rs:142-199 | There is one such choice. |
| TimeSlot.MultiplicationExact | crates/kmsrs-crypto/src/v6.rs:100-110 | For every timestamp the slot multiplication does not wrap. |
| TimeSlot.SlotsAgreeIff | crates/kmsrs-crypto/src/v6.rs:86-110 | Slot values of any two timestamps and offsets agree if and only if the offsets do and the quotients by TIME_C1 do. |
| TimeSlot.SlotIsFormula | crates/kmsrs-crypto/src/v6.rs:86-110 | The slot value is the quotient by 148,199,999,933 times 139,799,999,981, and the constant, and the offset's adjustment by the divisor, in 64 bits. |
| TimeSlot.SlotsHashedApart | crates/kmsrs-crypto/src/v6.rs:115-117 | Different slot values are hashed from different bytes. |
| TimeSlot.TagBytes | crates/kmsrs-crypto/src/v6.rs:115-141 | The key is the second half of the hash of the slot's eight bytes, lowest first, and the tag the second half of the keyed hash of the message. |
| TimeSlot.Verify | crates/kmsrs-crypto/src/v6.rs:149-158 | Returns the first offset, in the order tried, whose tag is the candidate. |
| TimeSlot.AcceptsExactly | crates/kmsrs-crypto/src/v6.rs:149-158 | A candidate is accepted if and only if it is the tag of one of the three offsets, and the offset named is one it is the tag of. |
| TimeSlot.RetriesRescueNothing | crates/kmsrs-crypto/src/v6.rs:22-41 | When no slot tried shares a tag with another slot by collision, a tag made in this slot is recognised with its offset and one made in another is refused; and a tag of another slot is refused only then. |

## Left out

- Sockets, DNS, HTTP, the registry, devices and argument handling: not part of this model.
- The `wire` and `kms` modules of `kmsrs-proto` and the format of an ePID: not part of this model; an ePID is a string and a request is its fields.
- SHA-256 and HMAC: any functions of the right result lengths, so nothing is said of the tag beyond what follows from equal or different inputs.
- The product data, the build's text output and its remaining checks: a product is its activation ID, key type, application, counted IDs and key blocks. The checks on group IDs, application names and the syntax of identifiers are left out, and the compile-time check that tables are sorted is a part of what `HostKeys.CountedIdsOf` proves of one table.
- Rijndael.Expand: words are four bytes, most significant first, where the source packs them in 32 bits and unpacks them again.
- Cbc.DecryptBuffer: a block is copied to a local array and back, where the source decrypts a local copy and borrows the destination's chunk.
- Cbc.EncryptInPlace: a block is encrypted in a local array and copied back, where the source encrypts the chunk itself.
- CbcMac.Tag: stated for every valid schedule; the published version 4 key is not part of the model.
- CountingWorld.ClientCounts.Observe: the reply for a missing bucket is not modelled, as the index is proved to be in range.
- RateLimiting.RateLimiter.Admit: likewise for a missing bucket; the clock's resolution and the 64-bit width of seconds are not modelled beyond the saturating product.
- Gate.Evaluate: the host identity is a function from application and counted ID to a host key chosen and its identity; `HostKeys.SelectIdentity` is the one the host uses. The mapping of a refusal to its result code is left out.
- KeyBlocks.DrawKeyId: the final return of the first block's start is kept and proved unreachable.
- HostKeys.Select: an ordered map is a sorted sequence of rows, the standard binary search the textbook one.
- HostKeys.SelectIdentity: there is one identity for each host key, so the fallback for a missing one is not modelled.
- Discover.Order: the draws are the sequence of values the caller's function returns, one for each record; the sum of weights wraps at 32 bits as a release build does, where a debug build stops.
- Soak.RunAccounts: a poisoned lock is not modelled; what the network does is free at every step.
- Soak.Run: threads are an interleaving of the workers' steps given in advance, in which each atomic update and each section under a lock is one step.
- Charging.Run: the replies are given in advance, and opening the session and drawing machine IDs are left out.
- `first_reachable`, and the locale and build draws: they would add only easy members.
