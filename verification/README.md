# USBVault: verified models of the cryptographic core, the migration runner and the companion supervisor

A Dafny 4.11 project that models five parts of USBVault and proves what they promise, for all inputs, all
random choices and all interleavings. `dafny verify dfyconfig.toml` checks everything.

| part of USBVault | modules |
|---|---|
| Shamir secret sharing over GF(2^8) (`usbvault-crypto/src/shamir.rs`) | `Gf256`, `Polynomial`, `Shamir`, `ShamirSecrecy` |
| SRP-6a client, with the server side of its tests (`usbvault-crypto/src/srp_client.rs`) | `NumberTheory`, `Srp` |
| V2RC streaming records (`usbvault-crypto/src/streaming.rs`) | `Frames`, `Streaming`, `StreamFormat`, `StreamIntegrity`, `IdealPrimitives` |
| Key-derivation transcripts and info strings (`usbvault-crypto/src/kdf.rs`) | `Kdf` |
| Database migrations under an advisory lock (`usbvault-server/migrations/migrate.go`) | `Migrations`, `MigrationProtocol` |
| Supervisor of the companion process (`electron-shell/src/companion-manager.ts`) | `Companion`, `CompanionEffects`, `CompanionBounds`, `CompanionRepeats`, `CompanionProgress` |

`Options`, `CryptoResult`, `Bytes`, `Counting` and `Primitives` hold what these share.

## How the model is built

- Loops, buffers and objects of the source are methods and classes, proved against specification functions;
  the promises are lemmas about those functions. The nested loops of `recover_secret` and the coefficient
  loop of `create_shares` are methods of their own.
- Random bytes (share coefficients, private keys, base nonces) are inputs, so results hold for every choice.
- HKDF, HMAC, the two AEAD ciphers and UTF-8 validation are function values in `Primitives`. The laws assumed
  of them are output lengths, that opening removes the 16 bytes that sealing adds, and that opening what was
  sealed gives the plaintext; `ToyIsLawful` gives an instance. SHA-256 and Argon2id are function values in
  `Srp.Suite`; only the 32-byte hash length is used.
- The SRP group is any prime `n` with a `g` that `n` does not divide; Fermat's little theorem is proved.
- Migration runners take steps over a shared database state; the supervisor takes one step for each piece of
  code that runs without an await. Every sequence of enabled steps is a run.

## Where code and documentation differ

The model follows the code.

- `srp_client.rs:249-254` describes `x = H(salt, H(identity, ":", password))`, `K = H(S)` and unpadded proofs.
  The code (274-324) derives x with Argon2id and pads every hashed number to 384 bytes. It also reduces the
  exponent modulo N - 1, which the known-answer vector (592-593) does not; `Srp.ReducedSecretExactly` says
  exactly when the two agree, and `Srp.ThirtyTwoByteExponentIsKept` that the code's 32-byte values always do.
- `companion-manager.ts:6,12` promise up to 5 restarts. The code gives up at the fifth crash, so there are at
  most 4 restarts after a start or a healthy reply; `CompanionBounds.BoundIsReached` attains that number.
- A child that exits while it is starting can be replaced twice, once for its exit and once for its failed health
  check (`CompanionBounds.OneDeathForksTwo`); `CompanionRepeats.DeathIsHandledAgainExactly` says when.
- A fork that throws can leave the supervisor "starting" for good; `CompanionProgress.ThrowingForkSticks` says when.
- `shamir.rs:365-377` expects two shares of a 3-of-5 split not to give the secret back.
  `Shamir.OneShareShort` shows that this fails exactly when the highest coefficients drawn are all zero.
- `streaming.rs` casts frame lengths to 32 bits without a check. `Streaming.RoundTripExactly` says which of the
  records that are written can be read back, and `Streaming.LongNamesAreWritten` that the others exist.
- An encryptor object yields at most one record: the second `encrypt_record` derives the nonce of position 0
  again and returns `NonceReuse` (`Streaming.OneRecordPerEncryptor`).
- The migration order is called stable, but two files with equal version and name after parsing (`1_a.sql`,
  `01_a.sql`) compare equal, and `sort.Slice` is not stable; `Migrations.OutcomeUniqueExactly`,
  `Migrations.SameNameIsAmbiguous`.
- A runner holds the lock on one connection and works over others. If only the first breaks, two runners can
  apply the same migration. The safety results assume that the lock ends by unlock or with its runner, and
  `MigrationProtocol.LockIsNeededExactly` says when they hold without that.
- The Argon2id salt input joins tag, salt and user name without lengths; `Srp.SaltInputInjectiveExactly`.
- `stop()` does not cancel a port search under way, which then forks a child (`CompanionProgress.StopIsFinalExactly`).

## Model

| member | source | states |
|---|---|---|
| Gf256.XtimeBranches | usbvault-crypto/src/shamir.rs:35-39 | The branch-free doubling used in the proofs is the shift and conditional 0x1B of the loop |
| Gf256.Gf256Mul | usbvault-crypto/src/shamir.rs:29-43 | The shift-and-reduce loop terminates and returns the field product `Mul` |
| Gf256.MulIsRemainder | usbvault-crypto/src/shamir.rs:27-43 | The carry-less polynomial product is a multiple of x^8+x^4+x^3+x+1 plus the loop's result |
| Gf256.RemainderIsUnique | usbvault-crypto/src/shamir.rs:27-43 | Only one quotient and one byte satisfy that equation, so the loop's result is the remainder |
| Gf256.MulXtime | usbvault-crypto/src/shamir.rs:29-43 | Doubling an operand doubles the product: the shift in the loop is multiplication by x |
| Gf256.MulAddLeft | usbvault-crypto/src/shamir.rs:29-43 | The loop distributes over exclusive or |
| Gf256.MulOne | usbvault-crypto/src/shamir.rs:231-238 | 1 is neutral for the loop, for every byte |
| Gf256.MulCommutes | usbvault-crypto/src/shamir.rs:29-43 | The loop is symmetric in its operands although it treats them differently |
| Gf256.MulAssociates | usbvault-crypto/src/shamir.rs:29-43 | Products of three bytes do not depend on grouping |
| Gf256.Pow256 | usbvault-crypto/src/shamir.rs:45-61 | Every byte equals its 256th power |
| Gf256.Pow255 | usbvault-crypto/src/shamir.rs:45-61 | Every non-zero byte has 255th power 1 |
| Gf256.InverseCorrect | usbvault-crypto/src/shamir.rs:45-61 | a^254 is the inverse of every non-zero a, and 0 for 0 |
| Gf256.Gf256Inv | usbvault-crypto/src/shamir.rs:48-61 | The fixed chain of squarings and products computes a^254, and its result times a is 1 unless a is 0 |
| Gf256.NoZeroDivisors | usbvault-crypto/src/shamir.rs:29-61 | A product is 0 if and only if a factor is |
| Gf256.BytesAreAField | usbvault-crypto/src/shamir.rs:27-61 | Bytes under exclusive or, the multiplication loop and the inversion chain satisfy all field laws |
| Polynomial.Gf256Eval | usbvault-crypto/src/shamir.rs:63-71 | The downward Horner loop evaluates the polynomial |
| Polynomial.HornerIsTermSum | usbvault-crypto/src/shamir.rs:63-71 | Horner's value is the sum of c_i x^i |
| Polynomial.AttachDivideOut | usbvault-crypto/src/shamir.rs:99-130 | Division of a share polynomial by x - r with its value at r as remainder is exact |
| Polynomial.InterpolantFits | usbvault-crypto/src/shamir.rs:99-130 | Through any points with distinct x there is a polynomial with as many coefficients |
| Polynomial.FitIsUnique | usbvault-crypto/src/shamir.rs:99-130 | ... and only one |
| Polynomial.WeightsSumToOne | usbvault-crypto/src/shamir.rs:183-199 | The Lagrange weights at 0 of any distinct points add up to 1 |
| Polynomial.LagrangeRecovers | usbvault-crypto/src/shamir.rs:177-205 | From at least as many distinct points as coefficients, the formula gives the value at 0 |
| Polynomial.LagrangeOnePointShort | usbvault-crypto/src/shamir.rs:177-205 | With one point too few it is off by exactly the leading coefficient times the product of the x |
| Shamir.BuildPolynomial | usbvault-crypto/src/shamir.rs:116-122 | The polynomial of a secret byte is that byte followed by its own row of random bytes |
| Shamir.CreateShares | usbvault-crypto/src/shamir.rs:88-136 | Succeeds exactly for a non-empty secret and 2 <= t <= n <= 255, else InvalidArgument; share i is its number followed by every polynomial's value there |
| Shamir.SharePrefixAt | usbvault-crypto/src/shamir.rs:109-130 | Byte by byte, what the pushes put into a share: i + 1, then the polynomial values at i + 1 |
| Shamir.ShareWrittenOut | usbvault-crypto/src/shamir.rs:109-130 | Share i starts with byte i + 1 and continues, for every secret byte, with the sum of c_j (i+1)^j over that byte and its own run of t - 1 random bytes |
| Shamir.RecoverSecret | usbvault-crypto/src/shamir.rs:146-208 | Too few shares, empty data, unequal lengths and duplicate numbers each give their error; otherwise the first t shares are interpolated at 0 in every byte position |
| Shamir.RecoverExactly | usbvault-crypto/src/shamir.rs:146-208 | Too few shares are InvalidArgument; no data byte, unequal lengths or equal numbers among the first t are SharingError; otherwise byte b is the constant term of the polynomial with t coefficients through byte b of the first t shares, and later shares play no part |
| Shamir.InterpolateByte | usbvault-crypto/src/shamir.rs:180-205 | The loop over the shares computes Lagrange's formula at 0 for one byte position |
| Shamir.BasisAtZero | usbvault-crypto/src/shamir.rs:187-199 | The inner loop computes the product of x_j / (x_j - x_i) over the other shares, with no zero divisor |
| Shamir.QuorumRecovers | usbvault-crypto/src/shamir.rs:88-208 | Any selection of distinct shares in any order returns exactly the secret, for all coefficients and every recovery threshold from t up to the number selected |
| Shamir.OneShareShort | usbvault-crypto/src/shamir.rs:365-377 | With t - 1 shares and threshold t - 1 recovery succeeds, each byte is off by top coefficient times product of numbers, and the secret comes back if and only if all top coefficients are 0 |
| Shamir.ExactlyOneRowFits | usbvault-crypto/src/shamir.rs:113-122 | For t - 1 distinct non-zero points and any candidate byte exactly one coefficient row fits |
| Shamir.BelowThresholdFitsEverySecret | usbvault-crypto/src/shamir.rs:99-130 | Any t - 1 shares with any data fit every secret of that length, each for exactly one choice of random bytes: they rule out nothing and favour nothing |
| ShamirSecrecy.FewerSharesSayNothing | usbvault-crypto/src/shamir.rs:99-130 | Any m < t shares with any data fit every secret of that length for exactly (256^length)^(t-1-m) choices of random bytes, whatever the secret |
| Shamir.CreateMekShares | usbvault-crypto/src/shamir.rs:210-213 | A 64-byte key is always split, into five shares with threshold three |
| Shamir.RecoverMek | usbvault-crypto/src/shamir.rs:215-224 | Recovers with threshold three; a secret that is not 64 bytes long is KeyWrappingFailed |
| Shamir.BackUpAndRestoreMek | usbvault-crypto/src/shamir.rs:299-307 | Any three or more of the five shares, in any order, give the 64 bytes back |
| NumberTheory.Euclid | usbvault-crypto/src/srp_client.rs:289-311 | A prime that divides a product divides a factor |
| NumberTheory.Fermat | usbvault-crypto/src/srp_client.rs:306-311 | Fermat's little theorem, on which reducing the exponent rests |
| NumberTheory.ReduceExponent | usbvault-crypto/src/srp_client.rs:306-311 | Reducing the exponent modulo p - 1 keeps the power of a base that p does not divide |
| NumberTheory.ReduceExponentExactly | usbvault-crypto/src/srp_client.rs:306-311 | For any base: it keeps the power if and only if p does not divide the base or the reduction does not make a positive exponent 0 |
| Bytes.ToBigEndianRoundTrip | usbvault-crypto/src/srp_client.rs:215-231 | Numbers survive the trip through minimal big-endian bytes |
| Bytes.ToBigEndianIsMinimal | usbvault-crypto/src/srp_client.rs:155-155 | Numbers are sent without leading zeros, 0 as one zero byte |
| Bytes.BigEndianAppend | usbvault-crypto/src/srp_client.rs:52-64 | Numbers are read big endian: the value of a + b is that of a, shifted by the length of b, plus that of b |
| Bytes.FromOneByte | usbvault-crypto/src/srp_client.rs:52-64 | ... and a single byte is its own value |
| Bytes.LittleEndianDigit | usbvault-crypto/src/kdf.rs:176-195 | Length, cost and index fields are little endian: byte k is the k-th digit in base 256 |
| Srp.PadBytes | usbvault-crypto/src/srp_client.rs:55-64 | The buffer ends up with the input right-aligned after zeros, or with the low 384 bytes |
| Srp.PadKeepsValue | usbvault-crypto/src/srp_client.rs:52-64 | Padding keeps the value modulo 256^384, hence the value of every string of at most 384 bytes |
| Srp.PadIgnoresLeadingZeros | usbvault-crypto/src/srp_client.rs:52-64 | Padding received bytes equals padding the number they encode |
| Srp.PadNumberInjective | usbvault-crypto/src/srp_client.rs:52-64 | Padded numbers are equal if and only if the numbers are congruent modulo 256^384 |
| Srp.HashInputsInjective | usbvault-crypto/src/srp_client.rs:274-324 | The inputs of k, u, M1 and M2 determine their operands for numbers below 256^384 (M2 for proofs of one length) |
| Srp.ClientBaseIsDifference | usbvault-crypto/src/srp_client.rs:294-301 | Both unsigned branches give the one number below N congruent to B - k g^x, for every B |
| Srp.ClientExponentIsReduced | usbvault-crypto/src/srp_client.rs:306-308 | The two-step reduction equals (a + u x) mod (N - 1) |
| Srp.ClientBaseOfHonestServer | usbvault-crypto/src/srp_client.rs:294-301 | Against B = k v + g^b the client's base is g^b |
| Srp.ServerSecretIsPower | usbvault-crypto/src/srp_client.rs:457-463 | The server's (A v^u)^b is g^((a + u x) b) |
| Srp.SecretsAgree | usbvault-crypto/src/srp_client.rs:289-311 | For every prime N not dividing g and all a, b, u, x, k, client and server compute the same S |
| Srp.ReducedSecretExactly | usbvault-crypto/src/srp_client.rs:306-311 | For every B: the client's S equals the power with the full exponent of the known-answer vector if and only if the base is not 0, the exponent is 0, or the reduction leaves it positive |
| Srp.SmallExponentIsKept | usbvault-crypto/src/srp_client.rs:306-311 | For every N and B: below N - 1 the exponent is not changed, so the client's S is the power with the full exponent |
| Srp.ThirtyTwoByteExponentIsKept | usbvault-crypto/src/srp_client.rs:187-311 | For every N of more than 65 bytes, as the code's is, the 32-byte a, u and x of the code are in that case for every B |
| Srp.ReducedSecretCanDiffer | usbvault-crypto/src/srp_client.rs:306-311 | The exception needs a small N: with N = 5 there is a server value for which the client's S is 1 and the full exponent gives 0 |
| Srp.ComputeSecret | usbvault-crypto/src/srp_client.rs:289-311 | The step-by-step big-number arithmetic computes the client secret |
| Srp.Suite.HandshakeAgrees | usbvault-crypto/src/srp_client.rs:408-483 | Written out in hashes, powers and remainders: for honest B the client refuses exactly B = 0 and otherwise has K = H(PAD(S)) and M1 for the S = (A v^u)^b that the server computes, with k, u, x and M2 as the protocol says |
| Srp.Suite.ChallengeExactly | usbvault-crypto/src/srp_client.rs:255-331 | For any B: multiples of N are refused and a failing derivation is passed on; otherwise S is the power, reduced exponent, of the one number below N that gives B when k g^x is added, and K and M1 are the written-out hashes |
| Srp.Suite.KeyFixesSecret | usbvault-crypto/src/srp_client.rs:313-317 | For a hash without collisions and N that fits the padding, two accepted challenges have one K if and only if they have one S |
| Srp.Suite.CredentialsFixX | usbvault-crypto/src/srp_client.rs:166-180 | For a hash and Argon2id without collisions and salts of one length, equal x come from equal password, salt and user name |
| Srp.SaltInputInjective | usbvault-crypto/src/srp_client.rs:166-173 | For salts of one length the Argon2id salt input determines salt and user name |
| Srp.SaltInputInjectiveExactly | usbvault-crypto/src/srp_client.rs:166-173 | For salts of lengths n and n', equal inputs force equal salt and user name if and only if n = n' |
| Srp.SrpClient.constructor | usbvault-crypto/src/srp_client.rs:114-123 | A new client has a zero key pair |
| Srp.SrpClient.ComputeVerifier | usbvault-crypto/src/srp_client.rs:143-156 | Returns g^x mod N as bytes, or the error of the derivation |
| Srp.SrpClient.StartAuth | usbvault-crypto/src/srp_client.rs:183-235 | Refuses a private key of 0 or 1 and a public key of 0 or 1 and then changes nothing; otherwise stores a and A and opens a session with the same a, A and user |
| Srp.EphemeralKeyRange | usbvault-crypto/src/srp_client.rs:195-196 | A draw below N is kept; every other one lands in 1..N-1, congruent to the draw plus 1 modulo N - 1 |
| Srp.SrpClientSession.ProcessChallenge | usbvault-crypto/src/srp_client.rs:255-331 | Answers as the challenge function says; keeps M1 and K exactly on success and changes nothing on error |
| Srp.SrpClientSession.VerifyServer | usbvault-crypto/src/srp_client.rs:336-364 | Accepts exactly H(PAD(A), M1, K) |
| Srp.FullFlow | usbvault-crypto/src/srp_client.rs:408-483 | For all passwords, salts and random choices the exchange completes if and only if no derivation fails and no weak value is drawn; it then ends with the key of the server on both sides and with M2 accepted |
| Primitives.ToyIsLawful | usbvault-crypto/src/streaming.rs:174-223 | Some primitives satisfy the laws assumed of the ciphers, HKDF and HMAC |
| Kdf.BuildKdfTranscript | usbvault-crypto/src/kdf.rs:176-195 | The appended fields are the transcript of the context |
| Kdf.TranscriptLayout | usbvault-crypto/src/kdf.rs:176-195 | Byte by byte: version, hash id, cipher id, salt length modulo 2^32, salt, memory, time, parallelism |
| Kdf.TranscriptIsSelfDelimiting | usbvault-crypto/src/kdf.rs:176-195 | A reader recovers every field and the exact rest of any longer string if and only if the salt is shorter than 2^32 bytes |
| Kdf.ParseIsExact | usbvault-crypto/src/kdf.rs:176-195 | Whatever the reader accepts is the transcript of what it returns, followed by the rest |
| Kdf.TranscriptInjective | usbvault-crypto/src/kdf.rs:176-195 | Equal transcripts have equal contexts, for salts of any length |
| Kdf.InfoInjective | usbvault-crypto/src/kdf.rs:1-19 | No two purposes or parameters of the crate share an HKDF info string |
| Kdf.KekInfoFixesContext | usbvault-crypto/src/kdf.rs:438-440 | The info string of a V6 key fixes the whole derivation context |
| Kdf.DeriveSubkey | usbvault-crypto/src/kdf.rs:246-262 | InvalidArgument for an empty key, an empty info or more than 256 info bytes, else the HKDF output |
| Kdf.DeriveFileKey | usbvault-crypto/src/kdf.rs:532-535 | A file key exists if and only if the file id has at most 240 bytes |
| Kdf.DeriveKekV6 | usbvault-crypto/src/kdf.rs:425-446 | Refuses salts that are not 32 bytes, memory outside 8192..1048576 KiB, and time or parallelism outside 1..16; otherwise HKDF over Argon2id under the domain string and the transcript |
| Frames.SplitJoin | usbvault-crypto/src/streaming.rs:341-372 | Framed sequences with lengths below 2^32 are split back into the same frames |
| Frames.JoinSplit | usbvault-crypto/src/streaming.rs:341-372 | A region walked to the end is the framing of its frames: framing again gives the same bytes |
| Frames.RegionIsOneSequenceOfFrames | usbvault-crypto/src/streaming.rs:341-372 | The walk ends with given frames if and only if the region is their framing and they fit: exactly one sequence |
| Streaming.ValidateChunkSize | usbvault-crypto/src/streaming.rs:72-90 | Accepts exactly 4 KiB to 64 MiB |
| Streaming.ChunksJoin | usbvault-crypto/src/streaming.rs:128-137 | The chunks are non-empty, at most 65536 bytes, and concatenate to the data for every length |
| Streaming.ChunkIsSlice | usbvault-crypto/src/streaming.rs:128-137 | Chunk i is the i-th run of 65536 bytes of the data, and only the last may be shorter |
| Streaming.BuildMetadata | usbvault-crypto/src/streaming.rs:113-118 | The pushes build type, name length, name and data length |
| Streaming.Stream.DecryptsOwnFrame | usbvault-crypto/src/streaming.rs:558-585 | The key the decryptor derives for a position opens the frame the encryptor sealed there, 40 bytes longer than its plaintext |
| Streaming.StreamingEncryptor.constructor | usbvault-crypto/src/streaming.rs:57-69 | A new encryptor has used no nonce |
| Streaming.StreamingEncryptor.CheckNonceReuse | usbvault-crypto/src/streaming.rs:165-171 | NonceReuse exactly for a used nonce; afterwards the nonce is used |
| Streaming.StreamingEncryptor.SealChunk | usbvault-crypto/src/streaming.rs:120-137 | One position: a used nonce changes nothing and never reaches the cipher, a new one is sealed under and marked |
| Streaming.StreamingEncryptor.EncryptRecord | usbvault-crypto/src/streaming.rs:100-146 | Returns header, frames and tag or the first error; used nonces only grow and are exactly those the cipher saw, none of them twice |
| Streaming.SealingNonces | usbvault-crypto/src/streaming.rs:120-137 | One call gives the cipher only unused, pairwise different nonces and marks exactly those |
| Streaming.OneRecordPerEncryptor | usbvault-crypto/src/streaming.rs:48-53 | Over any sequence of calls no nonce reaches the cipher twice, and every call after the first returns NonceReuse |
| Streaming.DecryptV2 | usbvault-crypto/src/streaming.rs:315-390 | Total on all byte strings: the offset loop stays in bounds, grows, and returns what the recursive walk returns |
| Streaming.DecryptRecord | usbvault-crypto/src/streaming.rs:281-312 | Case by case: shorter than 4 bytes InvalidHeader, other magic InvalidMagic, no version byte InvalidVersion, version 1 the version 1 path, version 2 the version 2 path, others InvalidVersion |
| Streaming.DecryptsExactlyTheFrames | usbvault-crypto/src/streaming.rs:341-372 | Decryption returns chunks if and only if the region is a whole number of frames that open to them, each under the key of its position |
| Streaming.MetadataRoundTrip | usbvault-crypto/src/streaming.rs:445-490 | Metadata reads back if and only if the name is UTF-8 and both lengths fit their fields |
| Streaming.RecordRoundTrip | usbvault-crypto/src/streaming.rs:100-390 | A record returned for a name and data that are `Representable` (UTF-8, metadata frame below 2^32, data below 2^64 bytes) decrypts with the same key and cipher to exactly that name and data, for both ciphers |
| Streaming.RoundTripExactly | usbvault-crypto/src/streaming.rs:100-390 | Of all records that encryption returns, exactly those with a `Representable` name and data decrypt to what went in |
| Streaming.LongNamesAreWritten | usbvault-crypto/src/streaming.rs:100-146 | With the toy primitives a record is returned for a name of any length, and it gives the name back if and only if the metadata frame is below 2^32 bytes |
| Streaming.OversizedMetadataIsLost | usbvault-crypto/src/streaming.rs:124-126 | For metadata frames of 2^32 to 2^32 + 23 bytes the failure is always InvalidNonce |
| StreamFormat.RecordWrittenOut | usbvault-crypto/src/streaming.rs:100-275 | Every record returned is V2RC, 2, base nonce, one frame for the metadata and one for each begun run of 65536 bytes, each frame the nonce derived for its position and the piece sealed under the key derived from that nonce, and the HMAC of all bytes before it |
| StreamFormat.EncryptionErrors | usbvault-crypto/src/streaming.rs:118-137 | Encryption fails only at a position whose nonce came up before (NonceReuse) or whose piece the cipher refuses (DecryptionFailed), with the error of the first such position |
| StreamFormat.MetadataExactly | usbvault-crypto/src/streaming.rs:445-490 | Metadata parses to a name and length if and only if it starts with their encoding and both are valid |
| StreamFormat.MetadataErrors | usbvault-crypto/src/streaming.rs:445-490 | A wrong record type is InvalidHeader, every other failure CorruptedChunk |
| StreamFormat.DecryptsExactly | usbvault-crypto/src/streaming.rs:315-390 | A record decrypts to a name and data if and only if its HMAC is right, its region is whole frames that open, the first holds metadata with that name, and the others together start with the data, cut at the length given |
| StreamFormat.RegionErrors | usbvault-crypto/src/streaming.rs:341-372 | A region that does not decrypt has a first place where it breaks: a cut frame is CorruptedChunk, a frame of under 24 bytes InvalidNonce, a refused one DecryptionFailed |
| StreamIntegrity.TagIsRequired | usbvault-crypto/src/streaming.rs:328-338 | Any string whose last 32 bytes are not the HMAC of all before them is refused: InvalidHeader below 61 bytes, else DecryptionFailed |
| StreamIntegrity.AlteredRecordsAreRejected | usbvault-crypto/src/streaming.rs:328-372 | If HMAC under the derived key verifies only bodies of written records, any byte string decrypts to an error, or it is a record that was written and gives the file written into it |
| StreamIntegrity.RecordIsV2 | usbvault-crypto/src/streaming.rs:281-312 | Every record returned by encryption takes the version 2 path and ends in the HMAC of all bytes before |
| StreamIntegrity.OpensOnlyAtItsPosition | usbvault-crypto/src/streaming.rs:558-585 | Under an ideal AEAD and different chunk keys, data opens at a position only if it is what was sealed there |
| StreamIntegrity.AlteredRegionGivesPrefix | usbvault-crypto/src/streaming.rs:341-372 | Without the MAC, any replacement of the chunk region gives an error or a prefix of the original pieces |
| StreamIntegrity.DisplacedFrameFails | usbvault-crypto/src/streaming.rs:341-372 | Without the MAC, moved, swapped or duplicated frames with different cipher nonces decrypt if and only if each is in its place, else DecryptionFailed |
| StreamIntegrity.SealedNoncesDiffer | usbvault-crypto/src/streaming.rs:120-137 | For XChaCha20-Poly1305 the reuse check of the encryptor gives its frames different cipher nonces |
| StreamIntegrity.DisplacedRecordFails | usbvault-crypto/src/streaming.rs:100-372 | Any rearrangement of the frames of any `Representable` record written with XChaCha20-Poly1305 decrypts if and only if each frame is in its place, else DecryptionFailed |
| IdealPrimitives.IdealAeadExists | usbvault-crypto/src/streaming.rs:174-223 | For any pieces there are lawful primitives whose chunk keys and nonces differ and under which nothing but the sealed frames opens in any region; the frames can be framed if and only if the pieces stay below 2^32 - 40 bytes |
| Migrations.LexTotal | usbvault-server/migrations/migrate.go:183-188 | String order is total, asymmetric and irreflexive, as sort.Slice requires of its comparison |
| Migrations.LexLessExactly | usbvault-server/migrations/migrate.go:187-187 | String order is dictionary order: the first difference decides, and a proper prefix comes first |
| Migrations.Dedupe | usbvault-server/migrations/migrate.go:190-198 | The loop with the seen map keeps the first entry of each version |
| Migrations.DedupeFacts | usbvault-server/migrations/migrate.go:182-200 | On sorted entries it gives strictly increasing versions, only given entries, and every version with a least name |
| Migrations.SortThenDedupe | usbvault-server/migrations/migrate.go:182-200 | However sort.Slice orders equal entries, the result has these properties |
| Migrations.ReadMigrations | usbvault-server/migrations/migrate.go:182-200 | Sorting and de-duplicating returns such a list |
| Migrations.ReadListsAgree | usbvault-server/migrations/migrate.go:182-200 | Two runners reading one directory get the same versions and names in the same order |
| Migrations.EveryReadListIsPossible | usbvault-server/migrations/migrate.go:182-200 | Every list with these properties is the outcome of some permitted sort: the description is exact |
| Migrations.OutcomeUniqueExactly | usbvault-server/migrations/migrate.go:182-200 | The list is independent of the sort if and only if no two different entries share a version and its least name |
| Migrations.SameNameIsAmbiguous | usbvault-server/migrations/migrate.go:182-200 | Two files of one version and name with different text are such entries |
| Migrations.ReadingIsIdempotent | usbvault-server/migrations/migrate.go:182-200 | Sorting and de-duplicating the result again changes nothing |
| Migrations.ApplyMigration | usbvault-server/migrations/migrate.go:228-249 | SQL and version row are committed together or not at all |
| Migrations.MigrateLocked | usbvault-server/migrations/migrate.go:90-126 | nil is returned if and only if table, directory and versions could be read and no pending migration fails, and means that exactly the pending ones were committed in order; an error before the loop commits nothing, one in it those before the failing one |
| Migrations.CountPending | usbvault-server/migrations/migrate.go:263-268 | The pending count reported is the number a run would apply |
| Migrations.PendingPrefix | usbvault-server/migrations/migrate.go:108-116 | What is pending among the first migrations is a prefix of what is pending in all |
| MigrationProtocol.PendingVersions | usbvault-server/migrations/migrate.go:108-116 | A migration is pending if and only if it is in the list and its version is not recorded |
| MigrationProtocol.CommitIsNextPending | usbvault-server/migrations/migrate.go:108-116 | A runner that commits on what it read at its start commits exactly the next pending migration |
| MigrationProtocol.StepRefinesSequentialRun | usbvault-server/migrations/migrate.go:56-126 | Every step of every runner keeps the invariant and either leaves the database alone or commits the next pending migration |
| MigrationProtocol.DatabaseChangesExactly | usbvault-server/migrations/migrate.go:228-249 | In any state only a commit, also one whose reply is lost, changes the database, by the migration at hand, and no other runner moves |
| MigrationProtocol.LockChangesExactly | usbvault-server/migrations/migrate.go:56-87 | The lock is taken only when free, and only the unlock, crash or session end of its holder frees it |
| MigrationProtocol.CrashAnywhere | usbvault-server/migrations/migrate.go:73-87 | A runner can crash at every point before it is done; it is then without the lock and the database is as committed |
| MigrationProtocol.EveryInterleavingCommitsAPrefix | usbvault-server/migrations/migrate.go:56-126 | Any number of runners, failing and crashing anywhere, commit a prefix of the pending list, each migration once, and record exactly what they committed |
| MigrationProtocol.MutualExclusion | usbvault-server/migrations/migrate.go:56-87 | At most one runner is between lock and unlock |
| MigrationProtocol.SuccessMeansFullyMigrated | usbvault-server/migrations/migrate.go:90-126 | After any history, once a run returned nil the database is where one uninterrupted run leaves it, and no later step of any runner commits anything |
| MigrationProtocol.WaitingRunnerCanFinish | usbvault-server/migrations/migrate.go:56-126 | From every state with the lock free a waiting runner can run to a nil return |
| MigrationProtocol.EveryWaitingRunnerCanFinish | usbvault-server/migrations/migrate.go:56-126 | In every state any run reaches, one unlock, crash or session end of the holder frees the lock and any waiting runner can then run to a nil return: no crash keeps the others out |
| MigrationProtocol.LosingTheLockSessionAppliesTwice | usbvault-server/migrations/migrate.go:56-87 | For every list with something pending and two or more runners, some run that loses a lock session commits the first pending migration twice |
| MigrationProtocol.LockIsNeededExactly | usbvault-server/migrations/migrate.go:56-126 | All runs, also those that lose lock sessions, commit a prefix of the pending list if and only if nothing is pending or there are fewer than two runners |
| Companion.CompanionManager.Start | electron-shell/src/companion-manager.ts:80-86 | Ignored while running or starting; else resets counter and stop flag and begins a port search |
| Companion.CompanionManager.Stop | electron-shell/src/companion-manager.ts:88-93 | Sets the stop flag, drops the current process and awaits its end |
| Companion.CompanionManager.OnStopKillDone | electron-shell/src/companion-manager.ts:88-93 | When the awaited end comes the status is stopped, whatever happened meanwhile |
| Companion.CompanionManager.OnPortSearched | electron-shell/src/companion-manager.ts:167-234 | The outcomes of a port search: failed, files missing, fork throws, or a new child and, unless stopping, its first health request |
| Companion.CompanionManager.OnHealthReply | electron-shell/src/companion-manager.ts:156-243 | A healthy reply resets the counter; else a pause, or the kill if the current child has an exit code |
| Companion.CompanionManager.OnPauseOver | electron-shell/src/companion-manager.ts:156-165 | The next of 30 attempts, or the end when they are used up or a stop came |
| Companion.CompanionManager.OnHealthKillDone | electron-shell/src/companion-manager.ts:239-243 | A child killed for bad health is handled as a crash |
| Companion.CompanionManager.OnExit | electron-shell/src/companion-manager.ts:222-226 | An exit is handled as a crash unless stopping |
| Companion.CompanionManager.OnError | electron-shell/src/companion-manager.ts:228-231 | An error event is handled as a crash unless stopping |
| Companion.CompanionManager.HandleCrash | electron-shell/src/companion-manager.ts:246-264 | Counts up; schedules a restart below five and gives up at five |
| Companion.CompanionManager.OnDelayOver | electron-shell/src/companion-manager.ts:259-263 | A delayed restart begins a port search unless stopping |
| CompanionEffects.StepEffects | electron-shell/src/companion-manager.ts:80-290 | Field by field, which steps set status, counter, stop flag, port, process, children and tasks, and to what; all others leave them alone |
| CompanionEffects.HandledCrash | electron-shell/src/companion-manager.ts:246-264 | A crash handled while not stopping counts one; below five it shows crashed and delays exactly one restart, from five on failed and none; while stopping it changes neither |
| CompanionEffects.RunningMeansHealthy | electron-shell/src/companion-manager.ts:97-100 | Over every run "running" is shown if and only if the last step that set the status was a healthy reply |
| CompanionEffects.AttemptsAreBounded | electron-shell/src/companion-manager.ts:156-165 | No run makes more than 30 attempts in one health check |
| CompanionBounds.StepKeepsInv | electron-shell/src/companion-manager.ts:80-264 | Every step keeps: restarts since the last reset equal min(counter, 4), and children, searches and timers are covered by starts and restarts |
| CompanionBounds.ForksAreBounded | electron-shell/src/companion-manager.ts:80-264 | Over every run forks <= 5 starts + 4 healthy replies, however often one death is handled, and restarts since the last reset equal min(counter, 4) |
| CompanionBounds.BoundIsReached | electron-shell/src/companion-manager.ts:80-264 | For all numbers of starts and healthy replies some run forks exactly that often; all its crashes are exits of the newest child and what failed health checks make of them |
| CompanionBounds.OnlyTheNewestIsTracked | electron-shell/src/companion-manager.ts:198-198 | The process held for killing is none or the newest child |
| CompanionBounds.OneDeathForksTwo | electron-shell/src/companion-manager.ts:222-264 | A run of nine steps with one start and one exit, handled by the exit event and, after the kill of the dead process, by the health check: two live children replace it and only the second is known |
| CompanionRepeats.ChecksScheduleExactly | electron-shell/src/companion-manager.ts:154-264 | From any state, failing health checks alone schedule one more restart if and only if the manager is not stopping, the counter leaves a restart, and a health request, pause or kill is pending |
| CompanionRepeats.DeathIsHandledAgainExactly | electron-shell/src/companion-manager.ts:154-264 | After an exit was handled, failing checks schedule a further restart if and only if the manager is not stopping, the counter left two, and a health check was under way at the exit |
| CompanionProgress.ForksAfterStop | electron-shell/src/companion-manager.ts:88-93 | While stopping and without a new start, at most the port searches under way still fork |
| CompanionProgress.StopIsFinalExactly | electron-shell/src/companion-manager.ts:88-93 | After a stop nothing is forked in any continuation without a start, if and only if no port search was under way |
| CompanionProgress.NothingIsForgotten | electron-shell/src/companion-manager.ts:156-264 | In every run without a throwing fork, "starting" and "crashed" are shown only while something is pending that will change them |
| CompanionProgress.ThrowKeepsMovingExactly | electron-shell/src/companion-manager.ts:197-211 | A fork that throws keeps that promise if and only if the status is not "starting", a stop is under way, or another startup task remains |
| CompanionProgress.StuckExactly | electron-shell/src/companion-manager.ts:80-264 | A manager that is "starting" and not stopping stays so in every continuation without stops and child events, starts included, if and only if no task at all is left |
| CompanionProgress.ThrowingForkSticks | electron-shell/src/companion-manager.ts:167-211 | A start from any status that start accepts, "crashed" included, whose fork throws ends in "starting" with the tasks from before it and ignores the next start; it is stuck for good if and only if there were none |

## Left out

- Insides of XChaCha20-Poly1305, AES-GCM-SIV, SHA-256, HMAC, HKDF and Argon2id: library code, represented by functions with stated laws.
- Random generation, zeroization, memory locking and constant-time comparison: not functional behaviour; random bytes are inputs.
- Primality of the 3072-bit N, and num-bigint's modpow: N is any prime, modpow is the power modulo N.
- Shamir.RecoverSecret: threshold 0, and enough shares with a first share of no bytes, are excluded, because the source panics on them.
- `decrypt_v1`: deprecated, guesses its data offset; its outcome is a parameter of `Streaming.DecryptRecord`.
- Machine limits on slice lengths and `usize`: lengths are unbounded, and the 32- and 64-bit length fields are written out as remainders.
- UTF-8: strings are bytes, and validity of a file name is a predicate among the primitives.
- Text of error values: only the kind of error is modelled.
- `cipher.rs`, `sharing.rs`, `memory.rs`, `metrics.rs`, key wrapping and `derive_kek` in `kdf.rs`: thin wrappers or system calls.
- Vault header, index, container and compaction.
- Meaning of SQL text, parsing of file names, connection pooling: a migration is its version, name and text, and a transaction commits as a whole or fails.
- The branch of `getAppliedVersions` for a missing table: the table was created just before under the lock.
- Runners reading different directories: all runners of `MigrationProtocol` read one list.
- A commit that takes effect after its runner died and its lock was released: a crash rolls the open transaction back at once.
- Port probing, health requests, signals and timers: their outcomes and order are arbitrary, durations are not modelled. The port file, log lines and emitted events are not modelled.
- That a killed process ends: its exit event may come at any time or never.
- usb-companion, Electron windows, web pages, document generators and end-to-end helpers: input, output and user interface.
