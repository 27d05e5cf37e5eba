# authlab, verified

A Dafny model of the protocol and crypto engines of authlab, with proofs of the properties they are built for.
Every module models one source file, or one part of it, in the form the source has: expressions and recursion are
functions, loops and objects are methods and classes proved against those functions.

| area | modules |
|---|---|
| number theory, RSA, primality, ECDSA | NumberTheory, BigEndian, Rsa, Primes, Ecdsa, SignatureCodec |
| AES | GaloisField, MixMatrix, AesTables, AesSbox, Sweeps, Aes, AesModes |
| Argon2 | Argon2Mix, Argon2Standard, Argon2Schedule, Argon2 |
| authorization graphs and policies | BoundedSearch, Text, Rebac, RebacRules, RebacQueries, GroupResolution, Rbac, Abac, PolicyAdapters, PolicyRebac, PolicyParity |
| OAuth tokens and tickets | OAuthState, OAuthFamilies, OAuthEffects, OAuthServer, Ciba, Par |
| replay caches | ReplayCache |
| encoders and parsers | Lexicographic, CborScalars, Utf8, Cbor, CborFormat, Ordering, XmlEscape, C14n, XmlReader, Ldap |
| shared | Wrappers |

`dafny verify dfyconfig.toml` checks the whole project.

## How the hard parts are modelled

- Protocols are state machines. An endpoint is a method of a class that keeps its run as ghost state; the method's
  contract says which event of the run the call is, and the laws are lemmas about all runs. The clock readings of a
  call are parameters, one for each reading the code makes. A random token is a parameter that was never drawn before.
- ECDSA is proved for every abelian group of prime order whose x coordinate does not change under negation. The group
  is a parameter of the model.
- The Argon2 schedule is proved for every compression function and then used with Argon2's own; interleavings of lanes are
  ghost schedules.
- Functions that a class or method is proved against are themselves pinned by what a standard says: AES by the byte
  equations of FIPS 197, Argon2 by those of RFC 9106, the RSA block by RFC 8017, CBOR by the grammar of RFC 8949,
  canonical XML by a reader. These statements do not use the functions that they pin.
- Digests, HMAC tags, URI scheme tests and attribute normalisation are function parameters.

## Where the code and its documentation differ

The model follows the code.

- `_rsasp1` is wrong for some message as soon as one prime is 2 (`Rsa.CrtCorrectIff`); key generation never draws 2.
- `generate_rsa_keypair` does not end for an odd number of bits (`Rsa.LengthFitsIffEven`).
- `signature_from_der` says it parses strictly, but accepts clipped lengths, lengths in a longer form
  than needed, and integers with superfluous zeros or a set top bit (`SignatureCodec.TruncationIsAccepted`, `SignatureCodec.LongLengthIsAccepted`).
  A string it decodes is the encoding of the result exactly when `Strict` holds of it (`SignatureCodec.StrictIff`).
- The CBOR module says that it rejects anything non-canonical; it accepts long heads (`Cbor.LongHeadsAreAccepted`),
  and these are all it accepts beyond the canonical form (`Cbor.CanonicalIffShortHeads`).
- The LDAP parser says that an unescaped parenthesis never reaches a value; an opening one does (`Ldap.OpeningParenthesisIsLiteral`).
  `Ldap.UnescapedParenthesisIff` says exactly when, and `Ldap.ConformantValueIff` when the value's text conforms to RFC 4515.
- The DPoP verifier reads the clock for the window and again for the purge, so "never twice" holds only if no tick lies
  between the readings of a call (`ReplayCache.ProofReplayIff`, `ReplayCache.TickReopensProof`).
- The Kerberos cache forgets after one skew, while a stamp from the future stays valid for up to two
  (`ReplayCache.AuthenticatorReplayIff`, `ReplayCache.FutureStampReplays`).
- ABAC lets a member of the group named "" read resources whose reader group is ""; the other models take that name for
  "no group" (`PolicyAdapters.AbacAgreesIff`, `PolicyParity.EmptyGroupBreaksParity`).
- `define_role` keeps a role whose hierarchy check failed, and the check refuses diamonds as well as cycles
  (`Rbac.DiamondIsRefused`). `Rbac.RoleStore.DefineRole` states exactly when it accepts, and when the map is acyclic afterwards.
- CIBA `approve` delivers in push mode even after a denial (`Ciba.PushIgnoresDenial`); no other mode does (`Ciba.DeniedDeliversIff`).
- A refresh resets the audience to the first known resource instead of carrying it over (`OAuthFamilies.AudienceIsLost`);
  `OAuthFamilies.AudienceKeptIff` says exactly when the two are the same.

Well-formed policy datasets (`PolicyAdapters.WellFormed`) have a depth that is not negative, map keys equal to the ids
they hold, names without '#', ids that do not read as wildcards, and a resource for each administrator's tenant.
Nothing else is asked of names; ':' and '@' are allowed.

## Model

| member | source | states |
|---|---|---|
| Rsa.GenerateKeypair | authlab/crypto/rsa.py:82-131 | the first drawn pair that has a private exponent decides: its key, or the error when q has no inverse modulo p; a pair without one is passed over; fewer than 512 bits is refused; an odd size never yields a key; prime pairs give valid keys |
| Rsa.KeypairIff | authlab/crypto/rsa.py:90-131 | a pair gives exactly the key with distant primes, the asked length, the inverse of e modulo lcm(p-1, q-1) of more than bits/4 bits, and the CRT parameters; the loop goes on exactly when there is no such exponent |
| Rsa.LcmIsLeast | authlab/crypto/rsa.py:134-141 | no common multiple is smaller than _lcm |
| Rsa.OddSizeNeverFits | authlab/crypto/rsa.py:101-113 | for odd sizes no pair of primes of the drawn size passes the length test, so the loop cannot end |
| Rsa.LengthFitsIffEven | authlab/crypto/rsa.py:101-113 | every pair of the drawn size passes the length test if the size is even, and none does if it is odd |
| Rsa.ComputeGcd | authlab/crypto/rsa.py:134-137 | the loop yields a common divisor that no other common divisor exceeds |
| Rsa.CrtIsExponentiation | authlab/crypto/rsa.py:144-151 | for a valid key with odd primes and every representative, also those that p or q divides, the CRT result is m^d mod n |
| Rsa.CrtCorrectIff | authlab/crypto/rsa.py:144-151 | the CRT result equals m^d mod n for all m if and only if neither prime is 2 |
| Rsa.PrimitivesInvert | authlab/crypto/rsa.py:144-158 | the two primitives undo each other on [0, n) (RFC 8017, sections 5.2.1 and 5.2.2) |
| Rsa.BlockBelowModulus | authlab/crypto/rsa.py:161-174 | the padded block of the modulus length, read as an integer, is below the modulus (RFC 8017, section 9.2) |
| Rsa.SignatureVerifies | authlab/crypto/rsa.py:177-202 | whatever sign returns, verify accepts under the public half of the key (RFC 8017, sections 8.2.1 and 8.2.2) |
| Rsa.VerifyAcceptsOnlySigned | authlab/crypto/rsa.py:177-202 | for a message that can be signed, verify accepts exactly one byte string, the one sign returns |
| Rsa.SignatureSaysDigest | authlab/crypto/rsa.py:161-202 | raised to the public exponent a signature is 00 01, at least eight FF, 00, the prefix of the hash and exactly the digest of its message; it is accepted for another message exactly when the digests, and the hash names, are the same |
| Rsa.VerifyIff | authlab/crypto/rsa.py:184-202 | a byte string is accepted exactly when it has the length of the key, is below n and opens to the padded digest of the message (RFC 8017, section 8.2.2) |
| Rsa.EncodeIff | authlab/crypto/rsa.py:161-174 | the encoding is the one padded block of the asked length (RFC 8017, section 9.2) |
| Rsa.PaddedOnce | authlab/crypto/rsa.py:161-174 | a padded block has one digest under one hash name |
| Rsa.PrefixMeansDigestInfo | authlab/crypto/rsa.py:34-38 | with a digest of its length each prefix constant is the DER of the DigestInfo |
| Rsa.SignSucceedsIff | authlab/crypto/rsa.py:161-181 | signing succeeds exactly for the three hash names and keys with room for the padding |
| NumberTheory.Fermat | authlab/crypto/primes.py:34-62 | Fermat's little theorem, from the binomial theorem; used by the primality test and by RSA |
| NumberTheory.Bezout | authlab/crypto/rsa.py:117-131 | the extended Euclidean algorithm behind the modular inverses gives the gcd as a combination |
| Primes.IsProbablePrime | authlab/crypto/primes.py:34-62 | the answer is that of the strong test on every base; a prime is accepted whatever the bases, so False means composite |
| Primes.Round | authlab/crypto/primes.py:51-62 | the inner loop with its break and else decides the strong probable prime condition for one base |
| Primes.SplitOddPart | authlab/crypto/primes.py:44-49 | n - 1 = d * 2^s with d odd |
| Primes.TrialDivision | authlab/crypto/primes.py:38-42 | a table prime is accepted, a proper multiple of one is composite, anything else is coprime to the table |
| Primes.PrimePasses | authlab/crypto/primes.py:51-62 | for a prime the chain of squares from any base meets the strong condition |
| Primes.RootChain | authlab/crypto/primes.py:51-62 | walking back along the squares of a prime modulus either 1 is the first power or some square is -1 |
| Primes.ExactBelowTableSquare | authlab/crypto/primes.py:34-62 | with a table that holds all primes below b the answer is exact below b squared |
| Primes.TableIsComplete | authlab/crypto/primes.py:23-32 | the table holds every prime below 547 |
| Primes.ExactBelow299209 | authlab/crypto/primes.py:23-62 | with the table in the source, all primes up to 541, the answer is exactly primality below 547 squared |
| Primes.GeneratePrime | authlab/crypto/primes.py:65-79 | fewer than 16 bits is refused; the returned candidate was accepted, is odd and has the asked length with both top bits set; every candidate passed over is composite |
| Primes.CandidateBits | authlab/crypto/primes.py:73-78 | the mask sets the two high bits and the low one and keeps every other bit of the draw |
| Primes.ProductHasFullLength | authlab/crypto/primes.py:65-79 | two primes with both top bits set multiply to a number of exactly twice the length |
| Ecdsa.ScalarMult | authlab/crypto/ec.py:253-272 | the Montgomery ladder computes (k mod n) * P, keeping r1 = r0 + P |
| Ecdsa.TimesMod | authlab/crypto/ec.py:253-272 | multiples depend on the scalar modulo the group order only |
| Ecdsa.TimesZero | authlab/crypto/ec.py:253-272 | in a group of prime order a multiple vanishes exactly when the order divides the scalar |
| Ecdsa.TimesNegate | authlab/crypto/ec.py:226-240 | the multiple by n - k is the negative of the multiple by k |
| Ecdsa.Sign | authlab/crypto/ec.py:366-393 | with z the leftmost bits of the digest, as many as the order has: a returned pair is the signature for the nonce in its low form, and nothing is returned only when there is no such signature |
| Ecdsa.Verify | authlab/crypto/ec.py:396-419 | with that z: accepted exactly when the range checks pass, the key is on its curve, and the x coordinate of u1*G + u2*Q is r |
| Ecdsa.LeftmostIff | authlab/crypto/ec.py:326-334 | _bits2int gives all of a short digest, and of a long one z with z*2^e <= digest < (z+1)*2^e |
| Ecdsa.SameNumberIff | authlab/crypto/ec.py:326-334 | two digests of one length give one number exactly when their leftmost bits, as many as the order has, agree |
| Ecdsa.BitIsShift | authlab/crypto/ec.py:326-334 | the bits of the digest bytes, most significant first, are those of the integer |
| Ecdsa.SignatureAccepted | authlab/crypto/ec.py:366-419 | every signature made with any usable nonce is accepted, before and after low-s replacement (FIPS 186-5, section 6.4) |
| Ecdsa.AcceptsIffSigned | authlab/crypto/ec.py:366-419 | a pair is accepted under the key of d exactly when some nonce makes it a signature by d |
| Ecdsa.AcceptsNegatedS | authlab/crypto/ec.py:388-419 | (r, s) is accepted exactly when (r, n - s) is: the malleability that low-s replacement removes |
| SignatureCodec.RawIff | authlab/crypto/ec.py:422-438 | a byte string of two widths decodes to a pair exactly when the pair encodes to it |
| SignatureCodec.DerRoundTrip | authlab/crypto/ec.py:441-481 | DER decoding gives back every pair, long-form lengths included |
| SignatureCodec.TlvRoundTrip | authlab/crypto/ec.py:470-481 | a tagged value is read back and what follows it is left untouched |
| SignatureCodec.RawThroughDer | authlab/crypto/ec.py:422-481 | raw to DER to raw is the identity |
| SignatureCodec.TruncationIsAccepted | authlab/crypto/ec.py:456-481 | a cut string is not strict, and decodes to the pair of the whole one: an announced length past the end is clipped |
| SignatureCodec.StrictIff | authlab/crypto/ec.py:441-481 | a string that decodes is the encoding of its pair exactly when it is strict: lengths end inside their containers and are shortest, integers are minimal and not negative, nothing is left over |
| SignatureCodec.StrictDecodes | authlab/crypto/ec.py:441-481 | every strict string decodes to the numbers of its first and second integer, and is what they encode to |
| SignatureCodec.LongLengthIsAccepted | authlab/crypto/ec.py:470-481 | a long-form length where the short form would do is not strict, and decodes |
| BigEndian.ToBytesToInt | authlab/util/encoding.py:33-50 | fixed-width encoding undoes decoding |
| BigEndian.ToIntConcat | authlab/util/encoding.py:33-50 | the integer of two joined strings is the first times 256 to the length of the second, plus the second |
| GaloisField.Multiply | authlab/crypto/aes.py:61-69 | the shift-and-add loop computes the product of the field |
| GaloisField.Commutes | authlab/crypto/aes.py:53-69 | multiplication in GF(2^8) is commutative |
| GaloisField.Associates | authlab/crypto/aes.py:53-69 | multiplication in GF(2^8) is associative |
| GaloisField.SumLeft | authlab/crypto/aes.py:53-69 | multiplication distributes over exclusive or |
| MixMatrix.MatricesAreInverse | authlab/crypto/aes.py:148-167 | the two column matrices multiply to the unit matrix in both orders |
| MixMatrix.MixUndone | authlab/crypto/aes.py:148-167 | mixing a column and unmixing it gives it back, and the other way round |
| AesTables.TablesAreInverse | authlab/crypto/aes.py:34-48 | the two substitution tables undo each other on all 256 bytes |
| AesSbox.SboxIsSubByte | authlab/crypto/aes.py:34-43 | every table entry is the affine image of the inverse in GF(2^8) (FIPS 197, section 5.1.1) |
| Aes.ShiftRowsAt | authlab/crypto/aes.py:132-145 | each position of a shifted state comes from the column that the row number says |
| Aes.MixColumnsLoop | authlab/crypto/aes.py:148-167 | the two column loops compute the mixing and its inverse on the whole state |
| Aes.AddRoundKey | authlab/crypto/aes.py:96-100 | in place, the state becomes its exclusive or with the four key words |
| Aes.RoundUndone | authlab/crypto/aes.py:102-130 | each decryption round undoes the encryption round of the same number, in both orders |
| Aes.BlockCipherInverts | authlab/crypto/aes.py:102-130 | for every key schedule the two block functions are inverse permutations of the blocks |
| Aes.EnciphersIff | authlab/crypto/aes.py:102-114 | the block functions compute the one result of the cipher of FIPS 197, section 5.1: states related byte by byte by position, S-box, column mixing except in the last round, and round key |
| Aes.EncryptBlock | authlab/crypto/aes.py:102-114 | a block that is not 16 bytes is refused; otherwise a run of the cipher of FIPS 197 leads from the block to the result |
| Aes.DecryptBlock | authlab/crypto/aes.py:116-130 | the loop over the rounds, taken backwards: the cipher of FIPS 197 leads from the result to the block |
| Aes.RconSuffices | authlab/crypto/aes.py:83-94 | for 16, 24 and 32-byte keys the schedule never reads past its table of round constants |
| Aes.ExpansionExpands | authlab/crypto/aes.py:83-94 | the expansion satisfies the key schedule recurrence of FIPS 197, section 5.2, at every word |
| Aes.ExpansionIsKeySchedule | authlab/crypto/aes.py:83-94 | byte by byte, with the S-box as a field inverse and the round constants as powers of x |
| Aes.RconIsPower | authlab/crypto/aes.py:50 | the round constants are the powers of x |
| Aes.ExpandKey | authlab/crypto/aes.py:83-94 | the appending loop computes that expansion |
| Aes.NewCipher | authlab/crypto/aes.py:75-94 | a key of another length is refused, the three lengths give 10, 12 and 14 rounds, and round key r is words 4r to 4r+3 of the key schedule of FIPS 197, section 5.2 |
| AesModes.UnpadIff | authlab/crypto/aes.py:170-187 | unpadding yields m exactly for the padding of m (RFC 5652, section 6.3) |
| AesModes.PadMeans | authlab/crypto/aes.py:170-178 | padding adds between one and sixteen bytes, each of them their number |
| AesModes.CbcDecryptIff | authlab/crypto/aes.py:190-223 | decryption yields m exactly for the strings that encryption of m produces for some initialisation vector |
| AesModes.CbcRoundTrip | authlab/crypto/aes.py:190-223 | decryption gives back every message (NIST SP 800-38A, section 6.2) |
| AesModes.ChainMeans | authlab/crypto/aes.py:190-207 | each cipher block enciphers the sum of its clear block and the cipher block before it, the first one of the IV |
| AesModes.CbcMeans | authlab/crypto/aes.py:190-207 | the result is the IV and the chain of the padded message under the cipher of the key |
| AesModes.CbcEncryptLoop | authlab/crypto/aes.py:190-207 | the block loop computes the recursive chaining |
| AesModes.CbcDecryptLoop | authlab/crypto/aes.py:210-223 | the block loop computes the recursive unchaining |
| AesModes.VerifyThenDecryptIff | authlab/crypto/aes.py:226-249 | the authenticated form opens to m exactly when its tag is right and its body decrypts to m |
| AesModes.SealedMeans | authlab/crypto/aes.py:226-237 | what is sealed ends in the MAC of everything before it, IV and cipher blocks |
| AesModes.EncryptThenMacRoundTrip | authlab/crypto/aes.py:226-249 | opening undoes sealing for every message |
| Argon2Mix.BlendInjective | authlab/passwords/argon2.py:86-106 | a + b + 2*lo(a)*lo(b) modulo 2^64 is injective in a |
| Argon2Mix.BlendUnblend | authlab/passwords/argon2.py:86-106 | and it is onto: every word is a blend with b |
| Argon2Mix.MixUndone | authlab/passwords/argon2.py:86-106 | the quarter-round is a bijection of four words |
| Argon2Mix.PermuteIsBijection | authlab/passwords/argon2.py:109-118 | P is a permutation of the sixteen-word rows (RFC 9106, section 3.6) |
| Argon2Mix.PermuteInPlace | authlab/passwords/argon2.py:109-118 | the eight in-place calls compute P |
| Argon2Mix.RoundsAreBijection | authlab/passwords/argon2.py:121-154 | applying P to all rows and then to all columns is a bijection of blocks |
| Argon2Mix.CompressInto | authlab/passwords/argon2.py:121-154 | the in-place compression equals G, folded into the old block when asked (RFC 9106, section 3.5) |
| Argon2Standard.MixMeans | authlab/passwords/argon2.py:86-106 | _mix is GB of RFC 9106, section 3.6, with its multiplications and the rotations 32, 24, 16 and 63 |
| Argon2Standard.PermuteMeans | authlab/passwords/argon2.py:109-118 | _permute is P: GB on each column of the matrix, then on each diagonal |
| Argon2Standard.CompressMeans | authlab/passwords/argon2.py:121-154 | _compress is G: P on the rows of x xor y, P on the columns, and x xor y again (RFC 9106, section 3.5) |
| Argon2Standard.XorBits | authlab/passwords/argon2.py:129 | the exclusive or of words, bit by bit |
| Argon2Schedule.ContextFor | authlab/passwords/argon2.py:284-309 | the geometry: four slices of equal length, and the largest number of blocks within the memory cost that allows it |
| Argon2Schedule.PlacesCover | authlab/passwords/argon2.py:330-343 | each pass fills every block of every lane once, but for the first two columns in the first pass |
| Argon2Schedule.ReferenceIsSafe | authlab/passwords/argon2.py:222-263 | in every pass the reference is in range, already written, never the block being written nor in another lane's current slice (RFC 9106, section 3.4) |
| Argon2Schedule.AreaIsWindow | authlab/passwords/argon2.py:244-254 | the area is the number of columns that are written, outside the unfinished part of the slice, and not the previous block (RFC 9106, section 3.4.1.2) |
| Argon2Schedule.ReferenceIsNth | authlab/passwords/argon2.py:222-263 | the reference is the z-th oldest of these columns, for the z of the quadratic bias |
| Argon2Schedule.RankFalls | authlab/passwords/argon2.py:256-257 | j1 = 0 chooses the newest, the largest j1 the oldest, and the choice never gets newer as j1 grows |
| Argon2Schedule.StepDependsOnView | authlab/passwords/argon2.py:340-377 | the block written depends only on cells the lane may see |
| Argon2Schedule.StepMeans | authlab/passwords/argon2.py:330-377 | every step takes its word from the address block or the previous block as the variant says, refers to the lane and rank the word chooses, and changes one block |
| Argon2Schedule.InterleavingsAgree | authlab/passwords/argon2.py:340-377 | for any compression function every interleaving of the lanes within a slice leaves the same memory |
| Argon2Schedule.SchedulesAgree | authlab/passwords/argon2.py:340-377 | so do any two choices of interleavings for all slices of all passes |
| Argon2Schedule.FillMemory | authlab/passwords/argon2.py:340-377 | the nested loops, one lane after the other in place, compute the result of every such schedule |
| Argon2.ComputeAddressBlock | authlab/passwords/argon2.py:198-219 | the two in-place compressions over the counter block give the address block |
| Argon2.CountersDiffer | authlab/passwords/argon2.py:198-219 | no two address blocks of a computation have the same counter block |
| Argon2.CounterWords | authlab/passwords/argon2.py:205-212 | the words of the counter block |
| Argon2.FinalBlockAgrees | authlab/passwords/argon2.py:325-383 | with the compression and the addresses of argon2 any two complete schedules end in one final block |
| Argon2.FirstMemoryMeans | authlab/passwords/argon2.py:325-334 | the hashed blocks stand in the first two columns, zeros elsewhere |
| Argon2.LastColumnMeans | authlab/passwords/argon2.py:379-383 | a bit of the final block is the parity of that bit over the last blocks of all lanes |
| Argon2.SequentialCompletes | authlab/passwords/argon2.py:330-341 | lane after lane is one of the complete schedules |
| Argon2.Compute | authlab/passwords/argon2.py:266-383 | parameters out of range and numbers that struct cannot pack are refused; otherwise first blocks, fill and the exclusive or of the last column give the final block of every complete schedule |
| BoundedSearch.PruningIsComplete | authlab/authz/rebac.py:178-203 | on any graph the search that prunes cycles finds an answer exactly when a walk within the bound exists |
| BoundedSearch.ReachableIsLeast | authlab/authz/rebac.py:178-242 | reachability is the least relation closed under the rules of the graph |
| Rebac.CheckIsBoundedSearch | authlab/authz/rebac.py:178-242 | check holds exactly when a walk of at most max_depth rewrite steps leads to a grant that names the user |
| RebacRules.CheckMeansChain | authlab/authz/rebac.py:163-242 | in terms of tuples and rules alone: a chain of at most max_depth steps, each a rule and a tuple, ends in a tuple that names the user or all of its kind |
| Rebac.CheckIsLeastFixpoint | authlab/authz/rebac.py:178-242 | once the depth covers the reachable keys, check is the least fixpoint of the rewrite rules |
| Rebac.CheckMonotone | authlab/authz/rebac.py:178-242 | more tuples or more depth never turn True into False |
| RebacQueries.ListUsersAgrees | authlab/authz/rebac.py:244-361 | a concrete user passes check exactly when list_users contains it or a wildcard covering it |
| RebacQueries.ListObjectsAgrees | authlab/authz/rebac.py:322-339 | list_objects returns exactly the objects of the type that pass check; the candidate set misses none |
| RebacQueries.Engine.CollectUsers | authlab/authz/rebac.py:341-361 | the recursive walk that grows `found` collects the users of the expansion |
| RebacQueries.Engine.Write | authlab/authz/rebac.py:151-154 | the tuples before the first malformed text are added, and no check that held fails |
| RebacQueries.Engine.Delete | authlab/authz/rebac.py:156-159 | the tuples before the first malformed text are removed, and no check that failed holds |
| RebacQueries.GivenIsAll | authlab/authz/rebac.py:151-159 | without malformed text these are the tuples of all items |
| RebacQueries.ParseShow | authlab/authz/rebac.py:66-73 | parsing undoes printing whenever the separators are free |
| GroupResolution.ResolveGroup | authlab/authz/policy_comparison.py:153-185 | it terminates on every group graph, matches exactly when a direct group reaches the target within the depth, an unmatched search visits exactly the subject's groups, and without a depth cut-off "unmatched" means unreachable |
| GroupResolution.ExpansionIsLighter | authlab/authz/policy_comparison.py:164-181 | the weight of an entry exceeds that of all entries its expansion pushes: the termination measure of the worklist |
| Rbac.RoleStore.DefineRole | authlab/authz/rbac.py:49-79 | the role is stored in any case; accepted exactly when no role below it inherits it and none below it has two heirs below it; afterwards, accepted or not, the map is acyclic exactly when it was acyclic without the role and the role is not below itself |
| Rbac.RoleStore.AssertAcyclic | authlab/authz/rbac.py:63-79 | returns normally exactly when no role reachable from the start inherits it and every defined one is inherited by at most one reachable role; returning normally yields an order in which all inheritance points forward |
| Rbac.AcyclicIff | authlab/authz/rbac.py:49-79 | a map with a role is acyclic exactly when it is acyclic without the role and the role is not below itself |
| Rbac.DiamondIsRefused | authlab/authz/rbac.py:63-79 | an acyclic diamond of four roles does not meet the condition |
| Rbac.NoCycleFromOrder | authlab/authz/rbac.py:63-79 | such an order excludes a cycle through any of its roles |
| Rbac.RoleStore.Assign | authlab/authz/rbac.py:81-85 | an unknown role name leaves everything as it was |
| Rbac.RoleStore.EffectiveRoles | authlab/authz/rbac.py:94-104 | the queue finds exactly the defined roles reachable from those held, on cyclic hierarchies too |
| Rbac.RoleStore.IsAllowed | authlab/authz/rbac.py:106-128 | allowed exactly when some effective role carries a permission that matches |
| Rbac.CanMeansChain | authlab/authz/rbac.py:94-128 | allowed means that a chain of inheritance from a role held leads to a permission that matches |
| Rbac.MatchesIff | authlab/authz/rbac.py:113-125 | a star stands for everything, any resource or any action; the permission is cut at its first colon |
| Abac.Engine.Evaluate | authlab/authz/abac.py:106-124 | allowed exactly when some allowing policy fires and no denying one does; the names reported are those that fired, prohibitions first, each part in policy order |
| Abac.FiresIff | authlab/authz/abac.py:64-79 | a policy fires for requests it lists, or lists by a star, if its condition answers true; one that raises never fires |
| Abac.DenyCannotBeUndone | authlab/authz/abac.py:106-124 | no further policies undo a prohibition |
| Abac.OrderIsIrrelevant | authlab/authz/abac.py:106-124 | the order of the policies does not matter to the effect |
| PolicyAdapters.BuildRbac | authlab/authz/policy_comparison.py:225-260 | it fails exactly when some tenant administrator's tenant owns no resource; otherwise roles and assignments are exactly those of the dataset |
| PolicyAdapters.OnlyItselfMatches | authlab/authz/rbac.py:113-125 | among permissions on ids that are not wildcards a grant matches only itself |
| PolicyAdapters.CanMeansPermits | authlab/authz/policy_comparison.py:262-277 | with these roles "can" means administrator, owner, or reader through a group |
| PolicyAdapters.DecideByRbac | authlab/authz/policy_comparison.py:262-277 | gives the common verdict; the allow code is materialized-role |
| PolicyAdapters.DecideByAbac | authlab/authz/policy_comparison.py:325-361 | gives its verdict: the common one except for the empty group name; the allow code is attribute-policy |
| PolicyAdapters.AbacAgreesIff | authlab/authz/policy_comparison.py:315-361 | ABAC agrees with the common verdict exactly when no access hangs on a group with an empty name |
| PolicyAdapters.DecideByCedar | authlab/authz/policy_comparison.py:435-464 | gives the common verdict, although prohibitions are collected first; the allow code is cedar-permit |
| PolicyAdapters.DecideByRego | authlab/authz/policy_comparison.py:473-496 | gives the common verdict, although permits are computed before the denial is looked at; the allow code is rego-permit |
| PolicyRebac.BuildRebac | authlab/authz/policy_comparison.py:371-407 | a negative depth is refused; on plain names the engine holds exactly the tuples of the dataset |
| PolicyRebac.DownIsUp | authlab/authz/policy_comparison.py:153-185 | searching down from a group finds a direct group at the same depth as searching up from the direct groups |
| PolicyRebac.ViewerCheck | authlab/authz/policy_comparison.py:409-426 | viewer holds exactly at depth two or more for the owner, or for a reader group found within depth minus two |
| PolicyRebac.EditorCheck | authlab/authz/policy_comparison.py:409-426 | editor holds exactly for the owner at depth one or more |
| PolicyRebac.AdminCheck | authlab/authz/policy_comparison.py:409-426 | the administrator tuple is found exactly for administrators of the tenant |
| PolicyRebac.DecideByRebac | authlab/authz/policy_comparison.py:409-426 | gives the verdict of those checks behind the guards; the allow code is relationship-path |
| PolicyParity.FourAgree | authlab/authz/policy_comparison.py:219-496 | RBAC, ABAC, Cedar and Rego give one effect and one denial reason; a denial is ReBAC's too |
| PolicyParity.RebacNeverAllowsMore | authlab/authz/policy_comparison.py:364-426 | ReBAC never allows what the others deny |
| PolicyParity.RebacAgreesIff | authlab/authz/policy_comparison.py:364-426 | ReBAC agrees exactly when the relationship does not lie in the last two levels of depth |
| PolicyParity.SlackIffNeverOutOfDepth | authlab/authz/policy_comparison.py:364-426 | over all requests: exactly when owners have depth two and each reader group is unreachable or reached with two levels to spare |
| PolicyParity.TwoLevelsMakeUp | authlab/authz/policy_comparison.py:364-426 | ReBAC with two more levels decides every request as the others do |
| PolicyParity.ParityIff | authlab/authz/policy_comparison.py:525-534 | the exact condition under which all five effects coincide |
| PolicyParity.EmptyGroupBreaksParity | authlab/authz/policy_comparison.py:315-321 | a dataset and a request on which ABAC alone allows |
| PolicyParity.PolicyComparison.RequireParity | authlab/authz/policy_comparison.py:522-534 | raises exactly outside that condition and otherwise returns the common effect |
| PolicyParity.Compare | authlab/authz/policy_comparison.py:512-520 | the constructor succeeds exactly when depth is not negative and every administrator's tenant owns a resource |
| OAuthFamilies.InvStep | authlab/oauth/models.py:117-134 | every event keeps each refresh family one chain of rotations whose last token alone is unused |
| OAuthFamilies.OneLiveAlways | authlab/oauth/authorization_server.py:469-545 | in every state of every run a family has at most one live token |
| OAuthFamilies.DescendantsNarrow | authlab/oauth/authorization_server.py:499-545 | along the chain owner and details stay, scope only shrinks and a binding once set never changes (RFC 6749, section 6) |
| OAuthFamilies.KeptAlways | authlab/oauth/models.py:151-194 | no event removes a token record, takes a mark back or alters what was granted, and a spent device code never returns |
| OAuthFamilies.EndedFamilyStaysDead | authlab/oauth/authorization_server.py:480-491 | after a detected reuse, or a revocation, the whole family stays revoked and none of it is exchanged again (RFC 9700, section 4.14) |
| OAuthFamilies.ReuseKillsAccess | authlab/oauth/authorization_server.py:480-491 | the access tokens the client held for the subject at a reuse stay inactive |
| OAuthFamilies.ReplayedCodeKills | authlab/oauth/authorization_server.py:414-427 | everything the client held for the subject at a code replay stays dead (RFC 6749, section 4.1.2) |
| OAuthFamilies.CodeIsSingleUse | authlab/oauth/authorization_server.py:404-467 | a code is exchanged at most once, by its own client, before expiry |
| OAuthFamilies.DeviceCodeIsSingleUse | authlab/oauth/authorization_server.py:575-611 | a device code too, although its record is deleted, and only when approved and not denied (RFC 8628, section 3.5) |
| OAuthFamilies.AccessNarrows | authlab/oauth/authorization_server.py:508-545 | the access token of a refresh has the owner, details and bindings of the refresh token and no more scope; its audience is exactly the first known resource, if there is one |
| OAuthFamilies.AudienceKeptIff | authlab/oauth/authorization_server.py:455-545 | over every run: a refresh in the family of a code has the audience of the first exchange exactly when the code named no resource or just the first known one |
| OAuthFamilies.AudienceIsLost | authlab/oauth/authorization_server.py:455-545 | a run in which a code for one resource is refreshed into an audience of another |
| OAuthFamilies.RotatedIsSpent | authlab/oauth/authorization_server.py:469-545 | a rotated token is never exchanged again |
| OAuthEffects.ReplayEndsWhatTheCodeProduced | authlab/oauth/authorization_server.py:404-427 | a code exchanged and presented again: from then on its access token is inactive, its refresh family revoked, and every access token that came from refreshing in the family inactive |
| OAuthEffects.RunLeaves | authlab/oauth/authorization_server.py:404-702 | in every run every step leaves exactly the records it should, field by field |
| OAuthEffects.ExchangeRecords | authlab/oauth/authorization_server.py:455-702 | tokens for the client and subject of the code, device or refresh token, with its scope and details, the key bindings, the clock and the configured lifetimes; the other records stay |
| OAuthEffects.RevocationMeans | authlab/oauth/models.py:174-194 | a replay, a reuse and a revocation mark exactly the tokens of client and subject, of the family, or the one |
| OAuthServer.AuthorizationServer.GrantAuthorizationCode | authlab/oauth/authorization_server.py:404-467 | issues tokens exactly when code, client, time, redirect URI, PKCE and DPoP key all fit; the call is the matching event of the run; a PKCE or DPoP refusal means that nothing but the verifier or the key was wrong; the state afterwards has exactly the records of that event |
| OAuthServer.AuthorizationServer.GrantRefreshToken | authlab/oauth/authorization_server.py:469-545 | issues tokens exactly when the token is live, own, in time, its bindings are met and the scope is not widened; reuse is looked for first; a scope or DPoP refusal means that nothing but the scope, or the bindings, stood in the way; the state afterwards has exactly the records of that event |
| OAuthServer.AuthorizationServer.GrantDeviceCode | authlab/oauth/authorization_server.py:575-611 | redeems, or refuses with exactly the error the record calls for, and the state afterwards has exactly the records of the event |
| OAuthServer.AuthorizationServer.GrantClientCredentials | authlab/oauth/authorization_server.py:547-573 | the event issues one access token without subject for the first known resource, never a refresh token, never for a public client, never beyond the client's scopes; each refusal has its error and changes nothing |
| OAuthServer.AuthorizationServer.IssueTokenSet | authlab/oauth/authorization_server.py:617-702 | the new records and nothing else |
| OAuthServer.AuthorizationServer.RevokeRefreshFamily | authlab/oauth/models.py:174-186 | revokes exactly the family and counts the tokens that were not revoked yet |
| OAuthServer.AuthorizationServer.RevokeAccessFor | authlab/oauth/models.py:188-194 | revokes exactly the access tokens of client and subject, with the count |
| OAuthServer.AuthorizationServer.Approve | authlab/oauth/authorization_server.py:788-799 | approves a device that shows the code unless it has expired |
| OAuthServer.AuthorizationServer.Revoke | authlab/oauth/authorization_server.py:851-866 | an access token alone, or the family of a refresh token, and only the client's own |
| OAuthServer.AuthorizationServer.Introspect | authlab/oauth/authorization_server.py:813-849 | reports the record exactly when it is known, not revoked and not expired |
| OAuthServer.AuthorizationServer.Reachable | authlab/oauth/authorization_server.py:364-402 | whatever sequence of endpoint calls was made, the invariant of the families holds |
| Ciba.DeliveredOnce | authlab/oauth/ciba.py:129-231 | an auth_req_id delivers tokens at most once, in every mode and interleaving |
| Ciba.NoTokensAfterDenial | authlab/oauth/ciba.py:161-193 | in poll and ping mode no tokens follow a denial |
| Ciba.PushIgnoresDenial | authlab/oauth/ciba.py:129-159 | in push mode they do: a run that denies and then delivers |
| Ciba.DeniedDeliversIff | authlab/oauth/ciba.py:129-193 | a denied request that is still open can deliver exactly when it is in push mode |
| Ciba.IntervalLaw | authlab/oauth/ciba.py:183-193 | the interval is its start value plus five for each SlowDown |
| Ciba.RecordIsHistory | authlab/oauth/ciba.py:88-231 | in every run a request's record says what its start said, who approved it last, whether it was denied or delivered, and when it was last polled |
| Ciba.RedeemedAsApproved | authlab/oauth/ciba.py:161-193 | a token call delivers only to the own client, before expiry, when approved, not denied and not delivered |
| Ciba.PolledAsTimed | authlab/oauth/ciba.py:183-193 | slow_down answers a poll within the grown interval since the last one, authorization_pending any other |
| Ciba.CibaService.Token | authlab/oauth/ciba.py:164-193 | the exact conditions for delivery, slow_down and authorization_pending; anything else changes nothing |
| Ciba.CibaService.ApproveRequest | authlab/oauth/ciba.py:129-159 | delivers at once in push mode, whatever was denied |
| Par.ResolvedOnce | authlab/oauth/par.py:44-108 | a request_uri is resolved at most once, to what its own client pushed, before expiry (RFC 9126, section 4) |
| Par.PushedAuthorizationRequests.Authorize | authlab/oauth/par.py:88-108 | the reference is spent before the request is checked |
| ReplayCache.ProofReplayIff | authlab/oauth/dpop.py:183-267 | a proof gets in again exactly when the first clock reading is still in its window and the second is past the entry's two windows |
| ReplayCache.NoProofTwice | authlab/oauth/dpop.py:183-267 | if each call sees one time, purging never reopens a replay (RFC 9449, section 11.1) |
| ReplayCache.TickReopensProof | authlab/oauth/dpop.py:183-267 | with a tick between the readings, a run that accepts one proof twice |
| ReplayCache.NoReplayOfPastStamp | authlab/kerberos/service.py:67-104 | an authenticator stamped no later than its first acceptance is accepted once (RFC 4120, section 3.2.3) |
| ReplayCache.AuthenticatorReplayIff | authlab/kerberos/service.py:67-104 | otherwise again exactly in the part of its window beyond one skew |
| ReplayCache.NeverThrice | authlab/kerberos/service.py:67-104 | no authenticator is accepted three times |
| ReplayCache.FirstUseIff | authlab/oauth/dpop.py:183-267 | a key that was not accepted before is accepted exactly when its stamp is in the window and the other checks pass |
| ReplayCache.FutureStampReplays | authlab/kerberos/service.py:67-104 | a run that accepts one authenticator from the client's future twice |
| ReplayCache.Purge | authlab/oauth/dpop.py:183-186 | the loop drops exactly the expired entries |
| ReplayCache.DPoPVerifier.Verify | authlab/oauth/dpop.py:188-267 | a call is the next step of the run and accepts as the law says |
| ReplayCache.KerberizedService.ApReq | authlab/kerberos/service.py:48-104 | a call is the next step of the run and accepts as the law says |
| Cbor.RoundTrip | authlab/crypto/cbor.py:39-170 | parsing encode(v) followed by anything gives v and leaves the rest, for every supported value |
| Cbor.PrefixFree | authlab/crypto/cbor.py:60-83 | encode is injective and no encoding begins another |
| Cbor.ParseIsShortest | authlab/crypto/cbor.py:39-153 | whatever decodes is a supported value whose encoding is no longer than the bytes read, and equal to them if as long (RFC 8949, section 4.2.1) |
| Cbor.LongHeadsAreAccepted | authlab/crypto/cbor.py:86-102 | a head longer than needed decodes |
| Cbor.CanonicalIffShortHeads | authlab/crypto/cbor.py:86-153 | what decodes is the encoding of its value exactly when every head read, of keys and lengths too, is the shortest for its argument |
| Cbor.CanonicalIsTheShortest | authlab/crypto/cbor.py:86-153 | of all strings that decode to a value its encoding is the only one that short |
| CborFormat.CanonicalIff | authlab/crypto/cbor.py:39-83 | the encoder writes the one canonical form: shortest heads by major type, items in turn, map keys once each, shorter encodings first and then by their first differing byte (RFC 8949, sections 3 and 4.2) |
| Utf8.IsUtf8Iff | authlab/crypto/cbor.py:116-120 | text is accepted exactly when it is some characters written out as UTF-8 (RFC 3629, section 3) |
| Cbor.ReadInOrder | authlab/crypto/cbor.py:54-153 | the strict order check leaves only the order in which the encoder writes |
| Cbor.DecodeAt | authlab/crypto/cbor.py:105-153 | the loops over items and entries, moving the offset, compute the recursive parse |
| Cbor.DecodePrefix | authlab/crypto/cbor.py:163-170 | any input is split into the value its beginning decodes to and the rest, or refused; every encoding with a suffix is split there |
| Cbor.Decode | authlab/crypto/cbor.py:155-160 | every encoding is decoded, trailing bytes are refused, nothing shorter than the encoding is accepted, and what is accepted is canonical exactly when its heads are short |
| CborScalars.HeadIsShortest | authlab/crypto/cbor.py:39-102 | no head that decodes to a value is shorter than the encoder's |
| CborScalars.AscendingIsUnique | authlab/crypto/cbor.py:54-57 | a set of keys has one canonical order |
| XmlEscape.TextRoundTrip | authlab/saml/c14n.py:88-94 | the four replacements in turn leave no markup, and a reader gets the text back |
| XmlEscape.AttributeRoundTrip | authlab/saml/c14n.py:97-105 | the six replacements in turn leave nothing that ends the value or is normalised, and a reader gets it back |
| XmlEscape.ChainIsSpread | authlab/saml/c14n.py:88-105 | successive replacements act on each character alone |
| C14n.MeaningPreserved | authlab/saml/c14n.py:123-196 | read by its own declarations the output has the expanded names, attributes, text and structure of the input |
| C14n.OutputIsLean | authlab/saml/c14n.py:144-162 | declarations are sorted, concern prefixes in use or asked for, and none is already in effect |
| C14n.ContextIndependent | authlab/saml/c14n.py:199-222 | without inclusive prefixes two contexts that agree on the free prefixes give one result, errors included (Exclusive XML Canonicalization 1.0, section 3) |
| C14n.CanonicalFormPreservesNames | authlab/saml/c14n.py:199-222 | both statements for whole calls |
| C14n.SortIsInOrder | authlab/saml/c14n.py:169-173 | attributes with different expanded names come out ordered by namespace, then local name |
| C14n.SortIsByNamespace | authlab/saml/c14n.py:169-173 | the smaller namespace first, and within one the smaller local name |
| C14n.WrittenOrderIsIrrelevant | authlab/saml/c14n.py:169-173 | the order in which attributes were written does not matter |
| C14n.DeclareNamespaces | authlab/saml/c14n.py:134-162 | the loops over attributes and sorted prefixes compute the declarations |
| C14n.RenderElement | authlab/saml/c14n.py:123-196 | the string built from parts is the serialised output tree, and it fails exactly when the tree does |
| XmlReader.CanonicalStringReads | authlab/saml/c14n.py:123-222 | an XML reader that matches tags and resolves references gets the output tree back from the canonical string, neighbouring texts as one |
| XmlReader.StringDeterminesTree | authlab/saml/c14n.py:164-196 | the same for every tree with XML names, with anything behind it |
| C14n.FailsIff | authlab/saml/c14n.py:116-162 | rendering fails exactly when some element that is not cut out asks for a prefix that is undeclared, or bound to a relative URI, in its own scope; what has been rendered already has no say |
| C14n.CanonicalizationFailsIff | authlab/saml/c14n.py:199-222 | the same for whole calls |
| Ordering.SortStrings | authlab/saml/c14n.py:147 | sorting a set of prefixes has one result |
| Ordering.StringLessIff | authlab/saml/c14n.py:147 | smaller means beginning the other, or having the smaller character at the first difference |
| Ldap.UnescapeEscape | authlab/directory/ldap.py:67-69 | unescaping undoes escaping for every string |
| Ldap.EscapeIsPlain | authlab/directory/ldap.py:56-69 | no filter syntax survives in an escaped value |
| Ldap.ValueIsNeverSyntax | authlab/directory/ldap.py:259-331 | a filter built around an escaped value is one equality test for exactly that value (RFC 4515, section 3) |
| Ldap.ShowParses | authlab/directory/ldap.py:273-331 | printing any tree of &, or and ! over equality, presence and substring tests and parsing it gives the tree back |
| Ldap.SubstringsParse | authlab/directory/ldap.py:306-322 | a value with stars, other than just one, is cut at the stars into exactly its pieces |
| Ldap.ShowIsInjective | authlab/directory/ldap.py:273-331 | two trees with the same printed form are the same tree |
| Ldap.OpeningParenthesisIsLiteral | authlab/directory/ldap.py:300-326 | an unescaped opening parenthesis does reach a value |
| Ldap.UnescapedParenthesisIff | authlab/directory/ldap.py:300-331 | for every text that is an equality test: an unescaped parenthesis is in the value exactly when an opening one is in the text between "=" and ")", and it is never a closing one |
| Ldap.ConformantValueIff | authlab/directory/ldap.py:300-362 | and that text is an assertion value of RFC 4515, section 3, exactly when it has no opening parenthesis and no NUL, and two hex digits follow each backslash |
| Ldap.LooseEscapesAreAccepted | authlab/directory/ldap.py:348-362 | a lone backslash, a one-digit escape at the end, and escapes with a sign or a space are accepted |
| Ldap.EscapeConforms | authlab/directory/ldap.py:56-69 | every escaped value is such an assertion value |
| Ldap.FilterParser.Parse | authlab/directory/ldap.py:273-304 | the parser with its position computes the recursive parse and moves as far |
| Ldap.ParseWhole | authlab/directory/ldap.py:259-265 | accepted exactly when the parse uses the whole of the stripped text |

## Left out

- Hash, HMAC, key derivation and base64 internals: function parameters.
- The elliptic curve formulas and constants (`point_add`, `point_double`, the named curves): the group is a parameter.
- Ecdsa.Sign: one turn of the loop with the nonce of `_rfc6979_k` as a parameter; it returns nothing where the source would try the same nonce again.
- Argon2.Compute: the input hash and the two hashed blocks of each lane are a parameter, and the final block is not hashed into the tag; `_blake2b_long` is left out.
- The row-shift loops of AES and the loop that fills the inverse substitution table are written out as lists; Aes.ShiftRowsAt and AesTables.TablesAreInverse state what they compute.
- Rbac: `explain` and `subjects_with`, which only format and repeat `can`.
- GroupResolution.ResolveGroup: the order of `visited` and the exact meaning of `cycle_detected` are not stated, only its set and the match.
- PolicyAdapters: the determining policy ids of a decision, `list_objects_all` and the decision log.
- RebacQueries.ListUsersAgrees: stated for users without '#'; a userset as user is not covered by the source's wildcard rule.
- ABAC condition combinators other than those the adapter uses: they are arbitrary functions here.
- OAuth client authentication, PKCE hashing, request validation, ID tokens and the dispatch on grant types: single-branch checks whose verdict is a parameter.
- OAuthServer.AuthorizationServer.GrantAuthorizationCode: without the ID token of the answer; the PKCE comparison is a parameter.
- OAuthServer.AuthorizationServer.GrantDeviceCode: without the ID token of the answer.
- OAuthServer.AuthorizationServer.Approve: without the normalisation of the user code and the authentication methods; among devices that show one code the model takes any.
- OAuthServer.AuthorizationServer.Introspect: without the user name, which a store of users adds.
- ReplayCache.DPoPVerifier.Verify: signature, nonce, token hash and key comparison are parameters, because the law is about the replay cache.
- ReplayCache.KerberizedService.ApReq: decrypting and checking the ticket is one parameter, for the same reason.
- Abac.Engine.Evaluate: without the text of the reason.
- OAuthServer.AuthorizationServer.IssueTokenSet: token strings are fresh values; the claims inside a JWT access token are not modelled.
- Ciba.CibaService.StartRequest: of the checks on a new request only the requested expiry is modelled.
- Par.PushedAuthorizationRequests.PushRequest: client authentication and the check of the pushed request come before it.
- Ciba: the token records themselves, which the authorization server keeps; delivery is an event.
- Records (codes, tokens, requests) are values in a map that the methods reassign; aliasing of the Python objects is not captured.
- Cbor: the failure for dictionary keys that are tuples.
- XML parsing and its errors: the element tree is given, and text is a sequence of characters.
- C14n: an attribute's namespace is resolved from the declarations in scope, as the parser does; duplicate attributes are excluded only where order matters.
- Ldap: `_substring_match` and searching; which control and non-ASCII characters Python takes for spaces and digits is a parameter.
- Timing, randomness quality, hardness claims, HTTP, TLS, X.509, SAML messages, SCIM and the browser labs.
