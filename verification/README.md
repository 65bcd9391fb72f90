# A model of the MuSig2 vault, with proofs

The repository is a wallet in which several devices hold a vault together: they exchange QR codes,
aggregate their keys with BIP-327, agree on a BIP-47 payment code for the vault, and sign with the
four-round MuSig2 ceremony. This project models that core and the four smaller algorithms beside it
(Base58Check, coin selection, the credential envelope, the QR and base64 text formats), and proves
what they are for. `dafny verify dfyconfig.toml` checks everything.

## How the program is modelled

**Points.** A point of the curve is its discrete logarithm, a number from 1 to n - 1, with the
generator at 1; infinity is `None`. Adding points, multiplying by a scalar and negating become
arithmetic modulo n. What the x coordinate of a point, the parity of its y coordinate, an encoding or
a hash function returns is left open: they are fields of the record `Curve.CryptoFns`, and every
theorem holds for every such record that satisfies `Curve.Lawful` (n is prime, P and -P are the only
points with their x coordinate and differ in parity, compressed encodings are unique, hashes have
their lengths). `Curve.SmallestGroup` shows that the laws can be met. Nothing cryptographic is
assumed: no hash is taken to be collision-free or random, so each theorem also covers the degenerate
outcomes, and says exactly when they happen.

**libsecp256k1.** Its refusals are kept: `mul_tweak` refuses a zero scalar, `combine` and
`add_exp_tweak` refuse infinity, `from_slice` refuses zero and anything from n on.

**Scalars.** In the protocol a scalar is the value of its 32 bytes. `Scalars` works on the bytes: the
carry and borrow loops are methods over arrays, proved to compute the operations modulo n that the
protocol modules use on values.

**State.** `Device.VaultSpend` is the spend object with its fields; each of its methods is proved to
take exactly the step that `Spend` describes on values, and `Spend`, `Ceremony` and `EndToEnd` prove
what holds of those steps: in one device for every run of calls, and between devices for every
interleaving. Loops of the program are loops here, proved against functions whose properties are the
lemmas of the same module.

**What is hashed, printed and paid.** A function that only names what goes into a hash or a text is not
left to speak for itself. The verifier of signatures has its own challenge, hashed strings are described
by what can be read off them, an address is computed again from the payee's secret, masks are taken off
again, tags and codes are shown to bind their inputs up to a collision, and estimates and limits stand as
numbers in the contracts.

**Text and amounts.** A text is a sequence of characters; only the white space of `trim` and the
letters the formats use matter. Amounts are 64-bit and saturate where the program saturates.

| module | what it holds |
|---|---|
| Bytes, Zn, Sorting, Text, Radix, Hex | numbers behind byte strings, residues, sorting, splitting, digits |
| Scalars, Curve | scalar arithmetic on bytes; the group as libsecp256k1 shows it |
| KeyAgg, Signing, PartialSigs, Correctness, NonceGen, NonceHash | BIP-327 |
| Bip340 | what the final signature check means and binds |
| Base58, Prefix, Bip47 | payment codes and payment addresses |
| Vault, Identity, BuiltCode, ToyGroup, OrderExample | building a vault, when two scans build the same one, and a concrete case |
| Spend, Device, ScanOrder, Ceremony, EndToEnd | the ceremony, and what it ends with |
| AnySigners, PlainMode, PlainExample | what `finalize` answers for signers of any kind, and outside taproot mode |
| Failures, Progress, Completion, ScannedVault | when calls fail, when the ceremony completes, and the ceremony from the scans on |
| Ecdh | the shared secret of a vault that pays |
| Coins, VaultTx, Notification | the value arithmetic of the three transaction builders |
| Cred, Tamper, Utf8, Qr, Base64 | the text envelopes |

## What the code does not do as documented

- `VaultConfig::build` is documented as order-independent (src/vault.rs:114-116). The order of the
  scans never decides whether a vault is built, but it decides which one: two scans give one aggregate
  code if and only if they agree on the code scanned first for every public key, or the chain code hash
  collides on their pairs (`Identity.SameCodeExactly`). So swapping two scans of one key with different
  chain codes gives another vault (`Identity.TwoChainCodesOrderMatters`), and `OrderExample.OrderMatters`
  is a concrete case in which both orders succeed.
- The header of src/musig.rs (lines 38-40) says that the signing rounds are not implemented; they are,
  from line 483 on.
- `scalar_add_mod_n` and `scalar_neg_mod_n` return a `Result` but have no failing path.
- The selection loop accepts coins worth 2^64 - 1 or more for an amount and fee beyond 2^64 - 1, because
  both sides of its test saturate; that is the only case in which it accepts what no choice of coins
  affords (`Coins.PayableExactly`, `Coins.SaturatedNeedPasses`).
- Outside taproot mode `finalize` still asks for the taproot context. A plain spend whose partial
  signatures all verify has a signature that is valid under the child key, and `finalize` returns it if
  and only if the taproot tweak of that key is valid (`PlainMode.PlainFinalizeExactly`);
  `PlainExample.PlainSignatureLost` is a concrete spend for which it is not, and then every signature is
  refused.
- The parser of payment codes reads neither the feature byte nor the padding. The test for PM8T refuses
  every code that sets a bit of the feature byte, since such a code prints with another prefix; the
  padding is free. So what parses are exactly the texts of codes with a compressed key, feature byte zero
  and any padding (`Bip47.ParsesExactly`, `Bip47.BodyParses`), and a code that parses is the one its
  contents print as if and only if the padding is zero (`Bip47.ParsedIsPrinted`,
  `Bip47.PaddedCodeIsNotPrinted`).

## Model

| member | source | states |
|---|---|---|
| Bytes.LexIsNumeric | src/musig.rs:391-394 | `bytes_ge`, the slice comparison of two byte strings of one length, is the order of the numbers they denote |
| Scalars.ScalarFromBytesModN | src/musig.rs:115-120 | a 32-byte value is reduced modulo n, one subtraction being enough |
| Scalars.SubN | src/musig.rs:122-137 | the borrow loop computes the exact difference of a value not below n and n |
| Scalars.AddWithCarry | src/musig.rs:397-405 | the carry loop computes the exact 33-byte sum |
| Scalars.SubtractOrder | src/musig.rs:407-419 | the 33-byte borrow loop computes the exact difference, in place |
| Scalars.WideCompare | src/musig.rs:406 | the comparison of the 33-byte sum with n is the numeric one |
| Scalars.ScalarAddModN | src/musig.rs:396-424 | (a + b) mod n for operands below n |
| Scalars.OrderMinus | src/musig.rs:431-444 | the borrow loop computes n - a |
| Scalars.ScalarNegModN | src/musig.rs:426-444 | (-a) mod n for an operand below n, zero included |
| Scalars.BytesRefineScalars | src/musig.rs:117-444 | with the curve order as modulus, the values the byte functions return are those of the scalar operations the protocol modules use |
| Scalars.OrderIs | src/musig.rs:56-59 | the 32 bytes of the order denote 2^256 - 0x14551231950B75FC4402DA1732FC9BEBF, the order of secp256k1 in SEC 2 |
| Curve.ScalarMul | src/musig.rs:446-454 | the product modulo n of factors below n, which is zero only if a factor is: libsecp256k1 is never asked for a zero product |
| Curve.CpointExtInverts | src/musig.rs:340-349 | reading the 33-byte encoding of a point or of infinity gives it back |
| Curve.PtAddIsAddition | src/musig.rs:351-368 | `pt_add` never fails and is addition in the group, the inverse pair it looks for being exactly the case of infinity |
| Curve.PtNeg | src/musig.rs:380-385 | flipping the parity byte of the encoding gives the inverse point |
| KeyAgg.SecondKey | src/musig.rs:169-175 | the key at the first position that differs from the first key, 33 zero bytes if all are the same |
| KeyAgg.KeyAggregate | src/musig.rs:161-215 | the loop over the keys is the aggregation fold, with its errors |
| KeyAgg.CoefficientExactly | src/musig.rs:169-196 | the first key different from the first one has coefficient 1 wherever it is listed, every other key the hash of all keys in their order and of itself modulo n; in a list of one key repeated all have the hash |
| KeyAgg.AggregateSucceeds | src/musig.rs:161-215 | keys aggregate if and only if there is one, all are points with nonzero coefficients, and no prefix of the list sums to infinity |
| KeyAgg.AggregateIsWeightedSum | src/musig.rs:185-214 | the aggregate key is the sum of the keys times their coefficients modulo n, for any list with repetitions; success means that every key is a point with a nonzero coefficient |
| KeyAgg.KeyAggCoeff | src/musig.rs:653-662 | the coefficient looked up by position is the coefficient of the key, whichever of its positions is found |
| Sorting.KeySortCanonical | src/musig.rs:141-146 | sorting keeps the keys with their multiplicities and gives one list for all orders of them |
| Signing.NonceAggregate | src/musig.rs:482-505 | the loop over the public nonces is the aggregation fold, with its errors |
| Signing.NonceSumSucceeds | src/musig.rs:489-492 | nonces aggregate if and only if every half of every one parses |
| Signing.NonceAggPermutation | src/musig.rs:482-505 | every order of the public nonces gives the same 66 bytes or fails, sums that pass through infinity included |
| NonceGen.MaskRand | src/musig.rs:518-526 | the masking loop XORs the secret with the hash of the random bytes |
| NonceGen.GenerateNonce | src/musig.rs:507-584 | the buffer filled step by step is the hashed string, for k1 and for k2 |
| NonceGen.NonceInputUnambiguous | src/musig.rs:527-557 | the hashed string determines random bytes, key, optional aggregate key, optional message, extra input and counter; a missing message differs from an empty one and k1's string from k2's. No bound on the extra input is needed, only on the message |
| NonceHash.GeneratedNonces | src/musig.rs:507-584 | both nonces are hashed from strings with the layout of BIP-327, counters 0 and 1; their first 32 bytes are the random bytes, or the secret key under the mask hashed from them, which taken off gives the key; generation fails if and only if one of the two is zero, and the public nonce belongs to them |
| NonceHash.KeyMatters | src/musig.rs:518-526 | one string of random bytes is masked differently for different secret keys |
| NonceHash.DeviceNonces | src/vault.rs:461-478 | in a spend these are the device's secret key and public key, the vault's aggregate key, the message and no extra input |
| Signing.TweakKey | src/musig.rs:586-611 | the loop over the tweaks is the tweak fold, and its result keeps Q = gacc·Q0 + tacc·G |
| Signing.TweakStepKeepsInvariant | src/musig.rs:591-609 | one round keeps Q = gacc·Q0 + tacc·G with gacc 1 or -1 and tacc below n, for plain and x-only tweaks and both parities |
| Signing.TweaksKeepInvariant | src/musig.rs:586-611 | and so does any list that mixes them |
| PartialSigs.SessionKeyInvariant | src/musig.rs:613-620 | the key of a session is its aggregate key up to sign plus the accumulated tweak |
| PartialSigs.SessionHashes | src/musig.rs:613-651 | b is hashed from the aggregate nonce, the x coordinate of the session key and the message, e from the x coordinates of the nonce point and the session key and the message |
| PartialSigs.MakePartialSig | src/musig.rs:664-707 | `sign`, negating its secrets in place by parity, computes the specified scalar or error |
| PartialSigs.CheckMeansEquation | src/musig.rs:733-755 | the check accepts exactly the nonzero scalars below n with s = ±(R1 + b·R2) ± e·a·P, signs by parity, when neither e nor a is zero |
| PartialSigs.AggregatePartialSigs | src/musig.rs:757-777 | the accumulator loop is the aggregation fold, with its errors |
| Correctness.SignSatisfiesEquation | src/musig.rs:676-707 | the scalar `sign` returns satisfies the equation of the check in all four combinations of the parity of R and the sign of the key |
| Correctness.SignMatchesVerify | src/musig.rs:664-755 | what `sign` returns passes `partial_sig_verify` if and only if the scalar, b, e and the signer's effective nonce are all nonzero |
| Correctness.VerifiedPartialsAggregate | src/musig.rs:709-777 | partial signatures that pass their checks, one for each position of any key list, for any tweaks and message and whoever made them, always aggregate, and BIP-340 accepts the result under the tweaked key if and only if R' is not infinity |
| Bip340.VerifyMeansEquation | src/vault.rs:664-675 | the check accepts a signature if and only if its scalar is reduced and s·G = R + e·P for even points with the x coordinates of the signature and the key, where e is hashed from both and the message |
| Bip340.MessageIsBound | src/vault.rs:664-675 | a signature that verifies for two messages under one key makes their challenge hashes agree modulo n |
| Bip340.ScalarIsUnique | src/vault.rs:664-675 | for a key, a message and a nonce coordinate there is at most one valid scalar |
| Radix.MulAddOfDigits | src/bip47.rs:126-135 | a pass of the conversion loop turns the canonical digits of a number into those of its multiple plus the carry, so the top digit stays nonzero |
| Base58.MultiplyInPlace | src/bip47.rs:126-135 | the inner loops, digit by digit with a carry, are one pass, and no digit leaves its range |
| Base58.CarryStaysSmall | src/bip47.rs:126-131 | the carry between two columns stays below the multiplier |
| Base58.ConvertDigits | src/bip47.rs:124-136 | the outer loop of the printer computes the canonical base-58 digits |
| Base58.ReadNumber | src/bip47.rs:148-161 | the outer loop of the parser computes the canonical base-256 digits, or stops at a character outside the alphabet |
| Base58.EncodeBase58Check | src/bip47.rs:117-145 | the printer as a whole |
| Base58.DecodeBase58Check | src/bip47.rs:147-174 | the parser as a whole, with its failures |
| Base58.Base58CheckInverse | src/bip47.rs:117-174 | a text is accepted with result d if and only if it is the text printed for d: round trip for every byte string, leading zeros included, and no second spelling |
| Base58.TextIsNumber | src/bip47.rs:117-174 | a text is accepted for d if and only if its digits denote, in base 58, the number of d followed by the first four bytes of its double SHA-256, with one leading digit zero for every leading zero byte |
| Base58.AlphabetExactly | src/bip47.rs:114-115 | the alphabet is the ASCII digits and letters without 0, O, I and l, in ascending order |
| Prefix.LeadingFour | src/bip47.rs:104-110 | version byte 0x47 and a version 1 payload with a compressed key print with the digits of PM8T in front if and only if the feature byte is zero |
| Bip47.ParsePrinted | src/bip47.rs:184-208 | a printed payment code parses back to its key and chain code, through the PM8T test and the checksum |
| Bip47.BodyParses | src/bip47.rs:184-208 | the text of a code with a compressed key parses if and only if its feature byte is zero, whatever its padding, and then to its key and chain code |
| Bip47.ParsesExactly | src/bip47.rs:184-208 | for all texts: what parses, and to which contents, are exactly the texts that, trimmed, are printed for a compressed key, a chain code, feature byte zero and some padding |
| Bip47.ParsedIsPrinted | src/bip47.rs:184-208 | a code that parses is the code printed for its contents if and only if its padding is zero |
| Bip47.PaddedCodeIsNotPrinted | src/bip47.rs:184-208 | every other padding gives a code that parses to the same contents and is not printed for them |
| Bip47.ChildTweakExactly | src/bip47.rs:229-240 | the child tweak is the left half of the HMAC-SHA512, under the chain code, of the 33 bytes of the key and the index in 4 bytes, refused from n on |
| Bip47.PayeeOwnsAddress | src/bip47.rs:263-291 | the address paid is that of the key the payee can spend: its secret is the child secret plus the digest of the x coordinate the payee computes from the sender's key; a round fails if and only if a tweak is invalid or a key infinity, and asks for the next index if and only if the digest is not below n |
| Bip47.PayeeOwnsSharedAddress | src/bip47.rs:302-326 | the same for the precomputed shared x coordinate |
| Bip47.PaymentAddress | src/bip47.rs:263-291 | if some index ends the loop, the result is that of the first index, counting on from the given one with 32-bit wrap-around, whose digest is a valid scalar or whose child key fails; all before it asked for the next index, and an address comes with its own index |
| Bip47.PaymentAddressFromSharedX | src/bip47.rs:302-326 | the same for the precomputed shared x coordinate |
| Bip47.SharedLoopOutcome | src/bip47.rs:307-325 | the digest does not depend on the index: a valid one ends the loop in its first round, an invalid one lets it end only by a failing child key, never with an address |
| Ecdh.SumPartials | src/musig.rs:244-254 | the accumulator loop is the sum, with its failures |
| Ecdh.CombineFromSucceeds | src/musig.rs:249-253 | points combine if and only if no prefix of them sums to infinity |
| Ecdh.CombinePermutation | src/musig.rs:244-254 | two orders of the same points that both combine give the same point |
| Ecdh.ShareAlwaysExists | src/vault.rs:238-254 | every participant of a built vault has a share over every point |
| Ecdh.ThresholdEcdh | src/vault.rs:259-267 | one share from each participant, in any order, combine if and only if no prefix of keys times coefficients sums to infinity, whatever the point B; then the result is the x coordinate of x·B for the aggregate secret x |
| Ecdh.CanonicalOrderCombines | src/vault.rs:259-267 | in the order in which the keys were aggregated the shares always combine |
| Ecdh.VaultPaysSameAddress | src/vault.rs:236-267 | at every index the vault's round has the result of the round of a holder of the aggregate secret, and with a valid digest that round ends the loop: one address, at one index |
| Vault.ScanAll | src/vault.rs:126-138 | the scanning loop with its set of seen keys collects the first scan of every key, or stops at a code that does not parse |
| Vault.BuildVault | src/vault.rs:117-147 | building as a whole, with its errors |
| Vault.CollectKeepsKeys | src/vault.rs:126-138 | one pair is kept for every key scanned, without repetition |
| Vault.SameFirstPairsSameVault | src/vault.rs:114-147 | two scans with the same first pair for every key build the same aggregate code or both fail, whatever the order and the repetitions; the converse is part of `Identity.SameCodeExactly` |
| Vault.OneVaultIdentity | src/vault.rs:114-147 | in particular two scans with the same set of (key, chain code) pairs, if no key has two chain codes |
| BuiltCode.BuiltCodeExactly | src/musig.rs:272-312 | codes that parse build a vault if and only if there are two keys and the keys in ascending order aggregate; the code then holds the aggregate key, and as chain code the tagged hash of each key and the chain code first scanned for it, in that order |
| Identity.SameKeysBuildAlike | src/vault.rs:117-147 | scans of the same keys all build a vault or none does, whatever chain codes and order |
| Identity.FlattenInjective | src/musig.rs:287-295 | the string hashed to the chain code determines the sorted pairs |
| Identity.SameCodeExactly | src/vault.rs:114-147 | two built vaults have one aggregate code if they agree on the first pair of every key, and only if they do or the chain code hash collides on their pairs |
| Identity.OrderMattersExactly | src/vault.rs:114-116 | the same for two orders of the same scans, of which one builds a vault if and only if the other does |
| Identity.TwoChainCodesOrderMatters | src/vault.rs:114-116 | if a key is scanned with two chain codes, swapping the two scans changes the aggregate code of every vault they are part of, unless that hash collides |
| Identity.TwoPrintedCodes | src/vault.rs:114-116 | every compressed key and two chain codes give such scans |
| OrderExample.OrderMatters | src/vault.rs:114-116 | a concrete case: three scans that build two different vaults in two orders |
| Vault.VaultCodeHoldsVaultKey | src/vault.rs:119-146 | the key inside a built vault's code is the key that `key_agg_sorted(sorted_pks())` gives, duplicate scans notwithstanding |
| Vault.InternalKeyAgrees | src/vault.rs:531-542 | the session's child tweak leads to the child key, whose x coordinate is the internal key of `taproot_context` |
| Vault.TaprootDerivationsAgree | src/vault.rs:170-195 | the session's two tweaks succeed if and only if `taproot_context` does, and then lead to its output key, whatever the parities |
| Vault.TaprootIsBip341 | src/vault.rs:170-195 | the internal key is the x coordinate of the vault's key plus the child tweak, the output key that of the even point with the internal key plus the tweak hashed from it; the context exists if and only if neither is infinity and the tweak is below n |
| Spend.CallKeepsInvariant | src/vault.rs:461-577 | every call, successful or not, keeps: nonces in matching pairs tagged with the device's key, no signature without session and nonce, distinct keys in the collections, and the collections only grow |
| Spend.ReachableStates | src/vault.rs:435-577 | so in every state any run of calls reaches; what was collected first stays |
| Spend.FreshIsInvariant | src/vault.rs:436-457 | a new spend starts there, in both modes |
| Spend.SessionAfterRound2 | src/vault.rs:499-555 | after a successful `build_session` or `set_session` the session carries the current message, the sorted keys, the tweaks of the current index and mode and the aggregate nonce; a failing `set_session` changes message and index only |
| Spend.BuildSessionExactly | src/vault.rs:499-511 | building a session succeeds if and only if two nonces are held, all can be read, and the vault has keys and tweaks; otherwise nothing changes |
| Device.VaultSpend.constructor | src/vault.rs:436-449 | a fresh plain spend |
| Device.VaultSpend.ForTx | src/vault.rs:453-457 | a fresh taproot spend of a transaction's sighash |
| Device.VaultSpend.GenNonce | src/vault.rs:461-478 | round 1 updates exactly the two nonce fields, on success |
| Device.VaultSpend.AddPubnonce | src/vault.rs:481-485 | the first nonce of each key is kept |
| Device.VaultSpend.BuildSession | src/vault.rs:499-511 | round 2 of the coordinator |
| Device.VaultSpend.SetSession | src/vault.rs:515-526 | round 2 of a signer |
| Device.VaultSpend.MakeSession | src/vault.rs:531-555 | the session context from the device's own data |
| Device.VaultSpend.SignPartial | src/vault.rs:559-570 | round 3 |
| Device.VaultSpend.AddPsig | src/vault.rs:573-577 | the first partial signature of each key is kept |
| Device.VaultSpend.Triples | src/vault.rs:641-650 | the loop that matches signatures with nonces by key |
| Device.VaultSpend.Finalize | src/vault.rs:635-677 | round 4, with its failures in the order of the code |
| ScanOrder.VerifyAllMeans | src/vault.rs:655-659 | the loop of checks passes if and only if every triple verifies |
| ScanOrder.AggregationPermutation | src/musig.rs:759-777 | partial signatures aggregate to the same signature in every order |
| ScanOrder.ScanOrderIrrelevant | src/vault.rs:635-677 | two coordinators with one session that hold the same nonces and signatures in different orders both fail or return the same signature |
| Ceremony.StartIsOk | src/vault.rs:436-457 | a ceremony of fresh spends is orderly, whatever messages and indices the devices start with |
| Ceremony.StepOk | src/vault.rs:461-577 | every honest step of any device keeps: each device's nonce pair, session and signature belong together, all sessions are the published one, and everything collected is attributed to the device that made it |
| Ceremony.RunOk | src/vault.rs:461-577 | and so does every interleaving of honest steps |
| EndToEnd.ShareKeys | src/vault.rs:639-650 | when everything is collected, the triples have exactly the vault's keys, each once |
| EndToEnd.VerifyKeyIsSessionKey | src/vault.rs:664-669 | the key `finalize` verifies under is the key of the session, in both modes |
| EndToEnd.FinalizeExactly | src/vault.rs:635-677 | in every orderly complete state, `finalize` succeeds if and only if every signer's values are nonzero, R' is finite, the taproot context exists and the message has 32 bytes |
| AnySigners.FinalizeAnswers | src/vault.rs:635-677 | without assuming anyone honest: with a current session made from all the nonces held, and a partial signature for each of them under the session's keys, `finalize` succeeds if and only if there are two shares, all verify, the taproot context exists, the message has 32 bytes and R' is finite, and its signature verifies; a failure names the first share that does not verify, or which of those conditions is not met |
| AnySigners.CompleteIsAssembled | src/vault.rs:481-577 | every orderly complete state of the honest ceremony is such a state |
| PlainMode.PlainFinalizeExactly | src/vault.rs:661-677 | outside taproot mode the signature of verified shares verifies under the child key of the vault's payment code, and `finalize` returns it if and only if the taproot tweak of that key is a valid scalar that does not lead to infinity; otherwise it fails with the tweak's error |
| PlainExample.PlainSignatureLost | src/vault.rs:665-669 | a concrete plain spend with verified shares and a valid signature for which `finalize` fails, as does its final check for every signature |
| EndToEnd.EndToEnd | src/vault.rs:435-677 | for any number of devices from two on that hold the same vault, and any interleaving of honest steps after which the coordinator holds everything, `finalize` succeeds under exactly that condition and its signature verifies under the child key, or in taproot mode under the output key |
| Progress.StepGrows | src/vault.rs:461-577 | no honest step takes back a nonce, a session, a signature or anything collected |
| Failures.GenerateFails | src/vault.rs:461-478 | generating a nonce fails if and only if one of the two scalars hashed from the device's randomness is zero |
| Failures.BuildFails | src/vault.rs:499-511 | in every orderly state, building the session from all nonces fails if and only if the vault has no tweaks for the coordinator's index |
| Failures.ReceiveSucceeds | src/vault.rs:515-526 | a device never fails to receive the published session |
| Failures.SignFails | src/vault.rs:559-570 | signing fails if and only if the session has no values |
| Progress.CanComplete | src/vault.rs:435-577 | from every orderly state, for any randomness that gives the missing nonces and any index with tweaks, honest steps lead to the coordinator holding everything or to a session without values |
| Completion.ValuesExactly | src/musig.rs:614-651 | with a taproot context, the published session lacks values if and only if its coefficient hash is zero while the sum of the second nonces is not infinity |
| Completion.NoTweaksNoCompletion | src/vault.rs:531-555 | without tweaks for the coordinator's index no honest run completes |
| Completion.NoValuesNoCompletion | src/vault.rs:559-570 | with a published session without values no honest run completes |
| Completion.RunsToTheEnd | src/vault.rs:435-677 | from every orderly state, with a taproot context and randomness that gives nonces, honest steps lead to a published session and complete the ceremony if and only if that coefficient is not zero; then `finalize` succeeds if and only if the run is healthy, and its signature verifies |
| ScannedVault.InternalKeyIsChildKey | src/vault.rs:170-195 | the internal key of a built vault is the child key of its own aggregate payment code |
| ScannedVault.ScansGiveOneVault | src/vault.rs:117-147 | scans with the same first pairs give vaults that agree in code and sorted keys |
| ScannedVault.SameVaultSameCalls | src/vault.rs:499-677 | such vaults give every call of the ceremony the same result |
| ScannedVault.SameVaultsSameRun | src/vault.rs:499-577 | a run in which every device uses a vault of its own is honest if and only if it is with one of these vaults for all, and reaches the same state, if the vaults agree in code and sorted keys |
| ScannedVault.ScansMakeASetup | src/vault.rs:117-219 | a vault built from the codes of devices with different keys, in any order and with repetitions, is a setup for their ceremony |
| ScannedVault.EndToEndFromScans | src/vault.rs:117-677 | the end-to-end result from the devices' own scans: all devices build the vault, and after any honest run in which each of them uses the vault it built, `finalize` with any device's vault succeeds if and only if the run is healthy, and its signature verifies under the child key of that device's own payment code, or in taproot mode under the output key |
| Coins.LargestAreBest | src/main.rs:809-810 | any k of the coins are worth at most what the k largest are |
| Coins.SelectCoins | src/main.rs:799-830 | on success the coins cover amount and fee and no fewer coins do; it fails if and only if no choice of coins covers them; the excluded outpoint is never picked; the failure reports the sum of all coins |
| Coins.CoversIsAffords | src/main.rs:815-822 | the saturating test agrees with exact arithmetic, but for coins worth 2^64 - 1 or more facing a need beyond that |
| Coins.PayableExactly | src/main.rs:814-830 | for all coins: a payment is accepted if and only if some choice is worth amount and fee in exact arithmetic, or all coins together are worth 2^64 - 1 or more and would need more than that |
| Coins.SelectionIsExact | src/main.rs:814-830 | with coins worth less than 2^64 - 1, refusal and the minimal number of inputs are exact |
| Coins.SaturatedNeedPasses | src/main.rs:824-826 | at 2^64 - 1 they are not: with one coin of that worth the selection accepts an amount that leaves nothing for the fee, although no choice affords it |
| Coins.BuildPayment | src/main.rs:799-858 | for inputs worth up to 2^64 - 1, they are split exactly into the amount, a change of at least 546 or none, and a fee from the estimate up to less than 546 above it, if and only if amount and fee do not saturate |
| Coins.KeptCounts | src/main.rs:798-802 | removing the excluded outpoint removes nothing else |
| VaultTx.BuildVaultTx | src/vault.rs:796-842 | the spend is built if and only if recipient, context, funds and outpoint are good, with the exact condition on the funds under saturation; then amount, change and fee add up to the coin, the change returns to the vault's own script, and the fee is at least the estimate and less than 546 above it |
| VaultTx.ScriptPaysKey | src/vault.rs:766-772 | the vault's script reads, by the rules of BIP-141, as a version 1 witness program of the output key |
| Notification.BlindPayload | src/main.rs:951-959 | the two XOR loops mask bytes 3 to 66 and leave the others |
| Notification.RecipientReadsPayload | src/main.rs:943-959 | the recipient, from its own secret and the input's public key, recovers the payload |
| Notification.MaskIsSharedSecret | src/main.rs:943-959 | what is sent differs from the key's x coordinate and the chain code by the HMAC-SHA512, under the outpoint, of the x coordinate both sides share; version, features, parity byte and padding are sent in clear |
| Notification.OutpointLayout | src/main.rs:946 | the outpoint is the id and the output number in four little-endian bytes |
| Notification.BuildNotification | src/main.rs:920-1015 | the largest coin is spent; there is no transaction if and only if there are no coins; an input too small means that no coin would do; the value is split exactly as above |
| Cred.ComputeHmac | src/cred.rs:43-67 | the pad loops compute HMAC of RFC 2104, long keys hashed and short ones padded |
| Tamper.HmacIsRfc2104 | src/cred.rs:43-67 | the code is the hash of the outer pad and the hash of the inner pad and the data, for any pads that give the key block back when 0x5c and 0x36 are taken off |
| Tamper.HmacBinds | src/cred.rs:43-67 | two codes agree only if their 32-byte keys and their data do, or SHA-256 collides |
| Cred.ApplyKeystream | src/cred.rs:70-87 | the chunk loops XOR byte i with byte i mod 32 of block i / 32, the counter wrapping at 2^32 |
| Cred.XorStreamTwice | src/cred.rs:77-87 | decrypting is encrypting again, for every length |
| Tamper.KeystreamIsCounterMode | src/cred.rs:70-87 | byte i is masked with byte i mod 32 of the HMAC of the nonce and the 32-bit counter i / 32 |
| Tamper.BlocksDiffer | src/cred.rs:70-75 | two blocks of keystream agree only if key, nonce and counter do, or SHA-256 collides |
| Cred.ConstantTimeEquals | src/cred.rs:127-137 | the OR-accumulating comparison is equality |
| Cred.EnvelopeExact | src/cred.rs:97-125 | an envelope is accepted with result p if and only if p is UTF-8 and the envelope is what `protect` prints for p under this key and some nonce, up to the case of hexadecimal letters |
| Tamper.TagBinds | src/cred.rs:90-95 | a tag belongs to one key, one nonce and one ciphertext, unless SHA-256 collides |
| Tamper.AlteredEnvelopeRefused | src/cred.rs:105-125 | two envelopes accepted under any keys that carry one tag are the same up to letter case, with one key and one plaintext, unless SHA-256 collides |
| Tamper.ProtectText | src/cred.rs:97-103 | the text is v1, the nonce, the ciphertext and its HMAC with the nonce in front, in hexadecimal, with colons between them |
| Utf8.ValidMeansText | src/cred.rs:124 | the test for UTF-8 accepts exactly the encodings of sequences of Unicode scalar values |
| Cred.ProtectRoundTrip | src/cred.rs:97-125 | what `protect` prints opens to the plaintext if that is UTF-8, and not at all otherwise |
| Cred.ProtectInjective | src/cred.rs:97-103 | an envelope determines its nonce and plaintext |
| Hex.DecodeIsEncode | src/vault.rs:399-401 | a text reads as b if and only if it is what is printed for b up to letter case |
| Hex.HexCharIs | src/vault.rs:399-401 | the digits are 0 to 9 and then a to f |
| Hex.EncodeLayout | src/vault.rs:399-401 | characters 2i and 2i + 1 are the high and the low half of byte i |
| Qr.RoundTripExact | src/vault.rs:303-397 | decoding what was encoded gives the payload back, for all nonces, sessions, signatures and shares, and for exactly those payment codes without a separator and trailing white space |
| Qr.Texts | src/vault.rs:303-334 | the text of each of the six payloads, spelled out |
| Qr.ParseExactly | src/vault.rs:336-397 | a field reads as the index v if and only if it is v printed in decimal, with any zeros and at most one plus sign in front |
| Text.TrimExactly | src/vault.rs:340 | trimming takes all white space at both ends and nothing else |
| Qr.CodeRoundTrip | src/vault.rs:304-354 | what becomes of any other code: trailing white space is lost, a separator makes it unreadable |
| Qr.EncodeInjective | src/vault.rs:303-334 | no two payloads, of whatever kinds and contents, have the same text |
| Qr.DecodeExact | src/vault.rs:336-397 | for all texts: accepted are exactly those that, trimmed, are the protocol name, a kind and fields that read as the payload's contents, joined by separators |
| Base64.EncodeBase64 | src/coinjoin.rs:115-130 | the loop over chunks of three bytes prints a text that the strict reader of RFC 4648, section 4, reads back as the data |
| Base64.ReadIsPrint | src/coinjoin.rs:115-130 | that reader accepts a text for some data if and only if it is the text printed for it |
| Base64.QuadIsNumber | src/coinjoin.rs:115-130 | four symbols are three bytes if and only if both denote one 24-bit number |

## Left out

- Curve and field arithmetic, SHA-256, SHA-512, libsecp256k1, the wallet library, PSBT, sighash and
  address formats: foreign code, represented by the fields of `Curve.CryptoFns` or by parameters.
- Unforgeability, secrecy and collision resistance: not decided by this code.
- Sockets, the relay, address tracking, Electrum, JSON, the user interface and its text summaries.
- The demo-only fabrication methods and fixtures of src/vault.rs.
- The persisted counters of the configuration: concurrent saves overwrite each other, so there is no
  whole-run property to state.
- Single use of a secret nonce: `sign_partial` keeps it, and the model keeps it too.
- A coordinator that also scans its own nonce: `build_session` would count it twice. The ceremony's
  honest steps exclude it.
- The little-endian and varint encodings inside transactions, apart from the outpoint that is hashed.
- Bip47.PaymentAddress: requires that some index ends the loop; the program has no bound on its rounds,
  and whether a round ends the loop depends on a hash.
- Bip47.PaymentAddressFromSharedX: requires the same; with an invalid digest it does not hold unless a
  child key fails, so the program's loop then does not end (`Bip47.SharedLoopOutcome`).
- Base58.MultiplyInPlace: holds the digits in a sequence that is reassigned, as the vector also grows;
  aliasing is not captured.
- AnySigners.FinalizeAnswers: requires a partial signature for every nonce aggregated, under the keys of
  the session; without one the sum lacks that nonce, and its final check depends on hashes.
- NonceGen.NonceInputUnambiguous: is stated for messages below 2^64 bytes, the range of the length the
  program writes.
- Coins.BuildPayment: does not state the split for inputs worth 2^64 or more, which is beyond the 64-bit
  sums of the program.
- Coins.SelectCoins: does not model overflow of the size estimate, which would take 2^57 inputs.
- Notification.BuildNotification: takes the input's secret key as given by its coin; deriving it from
  the seed is not part of this model.
- VaultTx.BuildVaultTx: takes the parsed recipient script and transaction id, and leaves out the
  sighash, the signature's attachment and the serialization.
- Device.VaultSpend.SignPartial: takes a secret key that is a nonzero scalar, which is what the type of
  the program's keys guarantees; the same holds for `GenNonce`.
- Cred.EnvelopeExact: represents the returned text by its UTF-8 bytes; key derivation from the seed is
  one hash and is not modelled.
