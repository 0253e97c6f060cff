# Verified models of the funai.js packages

This project models the deterministic code under the network layer of the repository and proves what
that code promises. `dafny verify dfyconfig.toml` checks all of it.

| area | modules | what is modelled |
|---|---|---|
| transaction authorization | `Keys`, `Addresses`, `Authorization`, `Transactions`, `PublicKeyOrder`, `Signing`, `Soundness`, `Cosigning`, `Sittings`, `TransactionSigner`, `ToyScheme` | addresses, the signature hash chain, what verification proves, multi-signature signing passes, resuming, sponsors |
| wire format | `AuthorizationWire`, `Canonical`, `Truncation`, `BytesReader` | the binary form of authorizations, both ways of the round trip, what is read when it was cut off, and the cursor that reads it |
| key derivation | `Pbkdf2` | the PBKDF2 fallback over HMAC, with its arrays and its aliasing |
| contract interfaces | `AbiTypes`, `AbiMatching` | printing ABI types, checking values and calls against them |
| storage | `GaiaHub`, `GaiaStorage`, `FileListing` | optimistic concurrency with entity tags, and paged listings |
| encryption envelope | `CipherSize`, `EnvelopeReading`, `ByteEquality` | predicting the size of an encrypted upload, reading its JSON back, comparing authentication codes |
| codecs | `Bytes`, `HexCodec`, `JsBits`, `ByteBuffer`, `Varuint`, `MessageSignature` | hexadecimal, two's complement, JavaScript bit operators, integers in byte arrays, variable-length integers |
| command line | `HelpText`, `CommandArgs` | wrapping help texts, merging keyword and positional arguments |

Code that changes things step by step is modelled by methods and classes, each proved against a function;
the properties are lemmas about those functions.

## Conventions

- Octet strings are `bytes`; a hexadecimal string of the source is modelled by the octets it denotes,
  except where the digits themselves matter (`HexCodec`, `CipherSize`, `EnvelopeReading`, `AbiMatching`).
- An exception or a returned error is an `Err` (or `None` where there is only one kind).
- The cryptographic primitives are the fields of `Keys.Crypto`, total functions about which nothing is
  assumed. Lemmas that need the signature scheme to work name `Crypto.Lawful` in their `requires`:
  hashes of transactions have 32 octets, a signature has 65, and recovering from a signature gives the
  signer's public key in the encoding asked for. `ToyScheme.ToyIsLawful` shows that the laws can be met.
  Where something is inferred from equal hashes (`Cosigning.ResumingIsFaithful` and `Soundness`), the
  alternative is that two inputs named there collide.
- `Transactions.Envelope` holds the octets of a transaction around its authorization.
- A hub is a map of files with numbered tags. Its preconditions are those of RFC 9110, sections 13.1.1
  (If-Match) and 13.1.2 (If-None-Match), and every write gets a tag that was never used before. What
  other clients do, and what becomes of each request (also the body of a refusal), is a script that the
  lemmas quantify over.
- Unsigned and signed 32-bit results are written out in `JsBits`; nonces and fees are natural numbers.

## What the proofs found

The code is modelled as it is. Where a law fails, a lemma says exactly when it holds.

- `readUInt32LE` returns a signed number, so `decode` after `encode` is off by 2^32 whenever bit 31 of the
  number is set. A framed message is misread exactly when its length has bit 31 set and is below 2^33
  (`Varuint.DecodeAfterEncode`, `MessageSignature.MessageRoundTrip`).
- A `TransactionSigner` constructed over a partly signed sequential transaction replays the signatures with
  the transaction's type and always as compressed keys, while verification uses the standard type and the
  field's own encoding. It picks up the right hash if no signature is there yet, or the transaction is
  standard and all its signatures are of compressed keys, and otherwise only by a hash collision
  (`Cosigning.ResumingIsFaithful`; `ToyScheme.ResumingGoesWrong` has a concrete transaction of either kind).
- In the non-sequential modes a new signer never starts from a wrong hash, but it throws if some signature
  recovers no key when it is replayed (`Cosigning.NonSequentialResuming`). Signatures on standard transactions
  always recover one (`Sittings.StandardSittingsRecover`); on a sponsored one, where they are replayed under
  another type than they were made for, a valid signature may be refused
  (`ToyScheme.SponsoredResumingMayFail`).
- A new signer also refuses a transaction that has all its signatures. So when the keys are gone through in
  several sittings, a signature must still be missing before the last one, or the remaining public keys
  can no longer be appended (`Sittings.SittingsComplete`).
- `createSponsorSigner` first verifies the origin, which for a multi-signature origin demands enough
  signatures, and then constructs a signer, which refuses an origin that has enough signatures. So a
  sponsor can only sign on top of single-signature origins (`Cosigning.SponsorSignsOnTop`).
- A public key may stand in an authorization in its 65-octet form. It is read, but written again as 33 octets;
  every other authorization that is read is written again as the very same octets
  (`Canonical.AcceptedOctetsAreCanonical`).
- Reads past the end of a `BytesReader` are short instead of failing, so some encodings that were cut off are
  accepted. `Truncation.CutsAccepted` says exactly which, and as what: the last condition must be a
  multi-signature one with some octet of its fee left, and either what is left of the number of fields is
  zero (then all fields are lost, and a cut fee is read as its leading octets), or all fields are left
  (then the required number is zero, or its high octet alone), or all but the end of a last field that is
  a public key. Every other cut is rejected, and so is every cut of a single-signature condition.
- A comment in `isRecoverableGaiaError` has server errors retried, but the error object made for a 5xx
  response carries no hub details, so only 401 and 409 are (or another status of the listed kinds whose
  body claims a recoverable `statusCode`): `GaiaHub.ServerErrorsAreFinal`,
  `GaiaStorage.ServerErrorIsNotRetried`.
- `putFile` can write twice, when a new file's first upload took effect but was reported as a recoverable
  error, and somebody deleted the file before the retry (`GaiaStorage.AtMostOneWrite`).
- A session that nobody interferes with can lose track of its own files: by a write that took effect and was
  reported as an error or without a tag, and by a deletion that took effect and was reported as an error.
  It stays in sync throughout a run if and only if no call ends in one of these ways
  (`GaiaStorage.LoneSessionStaysInSync`, with the exact conditions for one call in `PutSyncsExactly`,
  `DeleteSyncsExactly` and `GetSyncsAlways`).
- A recorded file that no longer exists, deleted by somebody else or by such a deletion of its own, is out of
  reach for good: reads and deletions fail without forgetting the tag, so every later checked write fails
  too (`GaiaStorage.AbsentFileStaysLost`, `GaiaStorage.LostDeletionStaysLost`).
- When a callback stops `listFiles`, null entries before the rejected name on the last page are counted as
  files (`FileListing.CountReturned`).
- In a wrapped help text, a first word that does not fit is preceded by an empty line
  (`HelpText.OverlongFirstWordLeavesEmptyLine`).
- Positional arguments beyond the open slots of a command are dropped silently
  (`CommandArgs.ExtraWordsAreDropped`). The lookup of an unnamed slot under the name `undefined` does no
  harm: it would need a schema with both an unnamed argument and one of that name
  (`CommandArgs.LeftoversAreUndefined`), and the schema in `argparse.ts` has neither.

## Model

| member | source | states |
|---|---|---|
| Signing.SigningIsComplete | packages/transactions/src/builders.ts:896-929 | for an account whose address is that of the keys, as given or in the order that makes up the given address, the signing pass ends in a transaction that verifies if and only if enough keys are held (exactly enough in the sequential modes), at least one signature is required and fee and nonce fit in 64 bits; verification then shows the keys in order and returns the signer's last hash |
| Soundness.VerificationIsSound | packages/transactions/src/authorization.ts:508-572 | a condition on an account of m and some keys verifies if its fields replay, show exactly these keys in order, and hold enough signatures (exactly m in the sequential modes); it verifies only then, or if the script of the keys shown collides with that of the account; each signature then recovers the key in its place from the hash its predecessors lead to |
| Soundness.SingleVerificationIsSound | packages/transactions/src/authorization.ts:478-506 | a condition on the account of one key verifies if its signature recovers that key from the hash that binds the chain, type, fee and nonce; it verifies only then, or if the key recovered collides with the account's under hash160 (in P2WPKH also their witness programs); what the verdict is made of, and which error every other condition gets |
| Soundness.VerifiedIsAuthorized | packages/transactions/src/transaction.ts:124-133 | for whole transactions of every mode: verified if the account's keys authorize it, the signatures being checked against the hash of the whole transaction, and only if, unless the keys it shows are others whose address collides with the account's |
| Soundness.InitialHashCovers | packages/transactions/src/transaction.ts:118-122 | two transactions start from the same octets, and without a collision of these from the same hash, if and only if everything before and after their authorizations, their type and their account agree |
| Soundness.SignatureCoversTransaction | packages/transactions/src/authorization.ts:365-390 | what the first signature (in the non-sequential modes every one) is made over is equal in two transactions if and only if all that surrounds the authorization, type, account, fee and nonce are, unless two named inputs collide |
| Soundness.StepChecksSignature | packages/transactions/src/authorization.ts:436-456 | one verification shows a key exactly when fee and nonce fit and the signature, of at most 65 octets, recovers that key from the hash binding type, fee and nonce to the current one; the next hash binds the signature |
| Soundness.WhyRefused | packages/transactions/src/authorization.ts:508-572 | which error a multi-signature condition gets: that of the first bad field, then of the number of signatures, of uncompressed keys, of the address |
| Soundness.ClearedIsWellFormed | packages/transactions/src/authorization.ts:201-217 | clearing keeps an authorization well-formed, whatever it is cleared of |
| Sittings.SittingsComplete | packages/transactions/src/builders.ts:896-929 | however an account's keys are spread over sittings, each with a new signer, the result verifies if and only if a single pass would (enough keys are held in their turn, and so on), a signature was still missing before the last sitting, and in the non-sequential modes the signatures made before it recover some key when replayed, as all those on standard transactions do; in sequential mode the sittings before the last hold no key, or the transaction is standard and their keys are compressed |
| Sittings.SittingsShowKeys | packages/transactions/src/builders.ts:896-929 | the same sittings succeed exactly under a condition on the numbers of keys held and, in the non-sequential modes, on replaying their signatures; the fields then show all the keys in order, and the signer's hash is the verifier's |
| Sittings.SittingContinues | packages/transactions/src/builders.ts:918-928 | one more sitting over what others left: exactly when it succeeds (in sequential mode for resumable transactions, otherwise for all), and what the transaction shows afterwards |
| Sittings.StandardSittingsRecover | packages/transactions/src/signer.ts:43-59 | on a standard transaction every signature a sitting makes can be replayed by a later signer, also one of an uncompressed key |
| Sittings.SittingKeepsRecoverable | packages/transactions/src/signer.ts:43-59 | after a sitting in a non-sequential mode a new signer can replay all signatures if and only if it could before and can replay those just made |
| Sittings.VerdictOfShown | packages/transactions/src/authorization.ts:547-571 | a transaction that shows the keys of its account verifies exactly when enough of them signed |
| Soundness.AddressDeterminesAccount | packages/transactions/src/wire/helpers.ts:23-68 | without collisions a multi-signature address determines the number of signatures and the keys, in order |
| Soundness.ScriptDeterminesKeys | packages/transactions/src/utils.ts:80-102 | two redeem scripts are equal only for the same number and the same keys |
| Soundness.AddressDeterminesKey | packages/transactions/src/wire/helpers.ts:51-54 | without collisions the address of one key determines the key |
| Addresses.OneKeyAddress | packages/transactions/src/utils.ts:63-75 | the P2PKH address is the hash160 of the key; the P2WPKH address is the hash160 of any 22 octets (for a 20-octet hash) that are 0, the length and the key's hash160; a key that starts with 04 has none |
| Addresses.ScriptLayout | packages/transactions/src/utils.ts:80-102 | the redeem script is exactly the octets with 80 + m first, every key after its length at its offset, and 80 + n and 174 last; there is none for more than 15 signatures or keys, or a key over 255 octets |
| Addresses.SeveralKeysAddress | packages/transactions/src/wire/helpers.ts:55-68 | the P2SH addresses are the hash160 of that script, the P2WSH ones that of the witness program over its sha256, which a list with a key starting with 04 does not have |
| Addresses.NoAddress | packages/transactions/src/wire/helpers.ts:30-48 | lists of keys that have no address, and the error each gets |
| Keys.PrivateKeyForms | packages/transactions/src/keys.ts:143-147 | 32 octets are a private key of the uncompressed public key, with 01 after them one of the compressed key, if and only if they are a valid secret |
| Keys.OnlyPrivateKeyForms | packages/common/src/keys.ts:10-26 | nothing else is a private key |
| Soundness.SignatureCoversFeeAndNonce | packages/transactions/src/authorization.ts:365-390 | two pre-signing hashes are equal if and only if chain, type, fee and nonce are, unless the two inputs collide |
| Soundness.PreSignLayout | packages/transactions/src/authorization.ts:365-390 | where hash, type (4 or 5), fee and nonce stand in the 49 octets hashed; it fails exactly when fee or nonce do not fit in 64 bits |
| Soundness.PostSignLayout | packages/transactions/src/authorization.ts:393-412 | where hash, kind of key and signature stand in what the next hash is made of; it fails exactly for signatures over 65 octets |
| Soundness.ReplayShowsSigners | packages/transactions/src/authorization.ts:518-545 | in every replay each signature recovers the key shown in its place, from the very hash that the fields before it lead to |
| Signing.PassReplays | packages/transactions/src/builders.ts:918-928 | from any hash and count, a pass over the keys succeeds exactly when each signature it calls for can be made and is still wanted; replaying its fields shows exactly those keys and ends on the signer's hash |
| Signing.OneKey | packages/transactions/src/builders.ts:919-928 | one key's step fails exactly when the key is held and cannot or may not sign; otherwise its one field verifies to that key, and only a sequential signature moves the hash |
| Signing.FindSignerFinds | packages/transactions/src/builders.ts:920 | among valid signer keys one is found exactly when one of them has the public key, and it is such a key |
| Signing.LawfulStepsAgree | packages/transactions/src/authorization.ts:414-456 | signing succeeds exactly when fee and nonce fit, and verification of the signature recovers the key and reaches the same next hash |
| Signing.OrderIsFound | packages/transactions/src/builders.ts:932-960 | keys are returned if and only if they are the order that makes up the address: the given one if it hashes to it, or else the ascending permutation if that does (and the given list has an address at all) |
| Signing.OrderExists | packages/transactions/src/builders.ts:949-957 | an order is found exactly when the given order, or any ascending permutation of it, hashes to the address |
| Signing.AddressPicksTheOrder | packages/transactions/src/builders.ts:909-916 | a pass with an address is the pass over the keys in the order that makes it up; without such an order nothing is signed |
| PublicKeyOrder.SortedIsSorted | packages/transactions/src/builders.ts:949 | sorting gives an ascending permutation |
| PublicKeyOrder.AscendingIsUnique | packages/transactions/src/builders.ts:949 | two ascending permutations of the same keys are equal |
| PublicKeyOrder.OrderOfHexTexts | packages/transactions/src/builders.ts:949 | the order of the octets is JavaScript's order of their hexadecimal texts |
| TransactionSigner.MutatingSignAppendMultiSig | packages/transactions/src/builders.ts:896-929 | the mutating pass leaves exactly the authorization and the hash of the specification `SignAppend`, fails exactly when it does, and on failure has at most added fields |
| TransactionSigner.SignInOrder | packages/transactions/src/builders.ts:918-928 | the loop over the keys does what `SignAll` says to the transaction and the signer's hash |
| TransactionSigner.TransactionSigner.SignOrAppendOrigin | packages/transactions/src/signer.ts:82-140 | one iteration adds the field and the hash of `SignOrAppend`, or fails and changes nothing |
| TransactionSigner.NewSigner | packages/transactions/src/signer.ts:24-61 | a new signer starts from the hash of `SignerStart`, or is refused |
| TransactionSigner.ReplaySigHash | packages/transactions/src/signer.ts:43-59 | the loop over existing fields computes `Resume` |
| TransactionSigner.FunaiTransaction.SignNextOrigin | packages/transactions/src/transaction.ts:194-221 | appends the signature under the private key's encoding and returns the next hash; a failure leaves the transaction as it was |
| TransactionSigner.FunaiTransaction.AppendPubkey | packages/transactions/src/transaction.ts:172-190 | appends the key under its own encoding, and changes nothing else |
| Authorization.VerifyMultiSig | packages/transactions/src/authorization.ts:508-572 | the verifier's loop and checks compute the reference verdict `MultiSigVerdict` |
| Authorization.ReadFields | packages/transactions/src/authorization.ts:513-545 | the loop over the fields computes the recursive replay of the hash chain, and whether some key is uncompressed |
| Authorization.KeysDoNotTouchTheChain | packages/transactions/src/authorization.ts:518-545 | dropping all public-key fields changes neither the chain of hashes, nor the number of signatures, nor failure |
| Authorization.SignaturesAreIndependent | packages/transactions/src/authorization.ts:524-545 | in the non-sequential modes a replay succeeds exactly when each field stands alone against the initial hash (below 65536 signatures), shows the fields' keys in order and returns the initial hash |
| Cosigning.LateSignatureKeepsVerdict | packages/transactions/src/authorization.ts:508-572 | in the non-sequential modes a key that is only shown may sign later: its signature in its place keeps the verdict |
| Cosigning.ResumingIsFaithful | packages/transactions/src/signer.ts:24-61 | a signer over a partly signed sequential transaction starts from the verifier's hash if no signature is there yet, or the transaction is standard and all signatures are of compressed keys; and only then, or by a collision of two hashes compared along the way |
| Cosigning.NonSequentialResuming | packages/transactions/src/signer.ts:43-59 | in the non-sequential modes a signer over a partly signed transaction starts from the initial hash if signatures are missing and every one there recovers some key under the transaction's type, and otherwise throws |
| Cosigning.ResumableIsResumed | packages/transactions/src/signer.ts:24-61 | in every multi-signature mode a resumable transaction is resumed from the hash its fields lead to; in the non-sequential modes it is enough that every signature recovers some key |
| ToyScheme.ResumingGoesWrong | packages/transactions/src/signer.ts:43-59 | two concrete transactions, a standard one with a signature of an uncompressed key and a sponsored one, over which a new signer starts from a wrong hash |
| ToyScheme.SponsoredResumingMayFail | packages/transactions/src/signer.ts:43-59 | under a lawful scheme a sponsored transaction of a non-sequential account with a valid signature, over which no new signer can be constructed |
| Cosigning.SingleSignatureVerifies | packages/transactions/src/authorization.ts:478-506 | the key of a single-signature account signs exactly when fee and nonce fit, and its signature then verifies to the hash returned |
| Cosigning.SingleTransactionVerifies | packages/transactions/src/transaction.ts:135-143 | a single-signature transaction signed by its own key, from where a new signer starts, verifies to the hash that signing returned |
| Cosigning.VerifiedMultiSigIsRefused | packages/transactions/src/signer.ts:34-41 | a transaction whose origin verifies can be given to a new signer if and only if it is a single-signature one |
| Cosigning.SponsorSignsOnTop | packages/transactions/src/signer.ts:63-80 | a sponsor can sign if and only if the origin verifies and is a single-signature one, and fee and nonce fit; the origin's verdict stays, and the sponsor's signature verifies on top of its hash |
| Cosigning.VerdictIsAHash | packages/transactions/src/authorization.ts:628-637 | verification returns 32 octets, so that a sponsor can go on from there |
| Transactions.InitialFormIsTheAccount | packages/transactions/src/authorization.ts:613-626 | two authorizations have the same cleared form if and only if type and account agree, whatever their fees, nonces, signatures and sponsors; clearing is idempotent |
| Transactions.ClearedCondition | packages/transactions/src/authorization.ts:201-217 | the octets of a cleared condition by position: mode and signer, zeros for nonce and fee, then the kind of key and 65 zeros, or no fields and the number of signatures |
| Transactions.NoSponsorIsZeros | packages/transactions/src/authorization.ts:458-464 | the stand-in for the sponsor is 103 zeros |
| Transactions.FeeIsThePayers | packages/transactions/src/authorization.ts:639-663 | the fee is the origin's, or the sponsor's in a sponsored transaction; what is set is read, setting it back undoes it, and a sponsored origin is not touched |
| Transactions.SponsorIsSetAlone | packages/transactions/src/authorization.ts:677-703 | the sponsor and its nonce are set alone |
| Transactions.SignBeginSucceeds | packages/transactions/src/transaction.ts:118-122 | every transaction has an initial hash, of 32 octets |
| Transactions.SponsorNeverDisturbsOrigin | packages/transactions/src/authorization.ts:639-703 | after any sequence of setFee, setSponsor and setSponsorNonce the origin has the same condition, initial hash and verdict |
| AuthorizationWire.AuthorizationRoundTrip | packages/transactions/src/authorization.ts:709-741 | decoding an encoding in the middle of any octets gives the authorization back, up to required counts modulo 65536, with the cursor where the rest starts |
| AuthorizationWire.EncodingIsPrefixFree | packages/transactions/src/authorization.ts:709-724 | two encodings, each with something after it, are equal if and only if the authorizations agree (up to those counts) and so does what follows |
| AuthorizationWire.WellFormedEncodes | packages/transactions/src/authorization.ts:709-724 | every well-formed authorization can be encoded |
| AuthorizationWire.ConditionRoundTrip | packages/transactions/src/authorization.ts:347-362 | the same round trip for spending conditions of both kinds |
| AuthorizationWire.FieldsRoundTrip | packages/transactions/src/wire/serialization.ts:281-329 | the same for lists of authorization fields |
| AuthorizationWire.FieldRoundTrip | packages/transactions/src/wire/serialization.ts:622-693 | the same for one field; an uncompressed key travels compressed and comes back uncompressed |
| AuthorizationWire.HeaderLayout | packages/transactions/src/authorization.ts:228-235 | where mode, signer, nonce and fee stand in an encoded condition; the code of the mode is 1 for several signatures, plus 2 for witness modes, plus 4 for non-sequential ones |
| AuthorizationWire.ConditionLayout | packages/transactions/src/authorization.ts:225-263 | what follows the header, by position: the kind of key and the signature, or the number of fields, the fields and the low 16 bits of the number of signatures |
| AuthorizationWire.FieldLayout | packages/transactions/src/wire/serialization.ts:670-693 | a field starts with 0 or 1 for a key and 2 or 3 for a signature; keys follow compressed |
| AuthorizationWire.AuthorizationLayout | packages/transactions/src/authorization.ts:709-724 | an authorization starts with 4 or 5, and goes on with its origin, or its origin and its sponsor |
| Canonical.AcceptedOctetsAreCanonical | packages/transactions/src/authorization.ts:709-741 | octets that are read as an authorization without running past the end are exactly those that writing it gives, if and only if no key among them is in its 65-octet form |
| Canonical.ConditionReencodes | packages/transactions/src/authorization.ts:343-362 | the same for a spending condition; what is written is never longer than what was read |
| Canonical.FieldsReencode | packages/transactions/src/wire/serialization.ts:281-329 | the same for lists of fields |
| Truncation.CutsAccepted | packages/transactions/src/authorization.ts:726-741 | for every proper prefix of an encoding, anywhere in the source: whether it is accepted, by a condition on the cut and the last spending condition, as which authorization, and where the cursor is left |
| Truncation.ConditionCut | packages/transactions/src/authorization.ts:352-362 | the same for a spending condition; what is accepted leaves the cursor past the end |
| Truncation.FieldsCut | packages/transactions/src/wire/serialization.ts:291-329 | a list of fields that was cut off is read exactly when the cut is in a last field that is a public key, after the key's first octet (and an uncompressed one can be uncompressed) |
| Truncation.HeaderCut | packages/transactions/src/authorization.ts:296-298 | a header that was cut off is read exactly when an octet of the fee is left, and then with the fee's leading octets |
| Truncation.SingleSignatureRejectsCuts | packages/transactions/src/authorization.ts:265-290 | an authorization that ends in a single-signature condition is rejected wherever it is cut |
| Truncation.HeaderAloneIsAccepted | packages/transactions/src/authorization.ts:292-341 | cut right after the fee, a multi-signature condition is accepted without its fields |
| Truncation.TruncatedCountReadsAsZero | packages/transactions/src/authorization.ts:292-341 | cut before its last two octets, it is accepted with a required number of zero |
| BytesReader.BytesReader.ReadBytes | packages/transactions/src/BytesReader.ts:54-58 | the view is clamped to the source and the cursor advances by the length asked for |
| BytesReader.BytesReader.ReadBigUIntBE | packages/transactions/src/BytesReader.ts:78-82 | reads the number that the octets denote, and fails when there are none |
| BytesReader.ReadBack | packages/transactions/src/BytesReader.ts:78-82 | a number below 256^n written in n octets reads back, wherever it stands |
| BytesReader.DeserializeAuthorization | packages/transactions/src/authorization.ts:726-741 | the deserializer returns what the decoding function says and leaves the cursor there |
| BytesReader.DeserializeSpendingCondition | packages/transactions/src/authorization.ts:352-362 | the same for a condition |
| BytesReader.DeserializeMultiSigSpendingCondition | packages/transactions/src/authorization.ts:292-341 | the same for a multi-signature condition |
| BytesReader.DeserializeSingleSigSpendingCondition | packages/transactions/src/authorization.ts:265-290 | the same for a single-signature condition |
| BytesReader.InspectFields | packages/transactions/src/authorization.ts:303-320 | the loop throws exactly at 65536 signatures, and otherwise tells whether some key is uncompressed |
| BytesReader.DeserializeHeader | packages/transactions/src/authorization.ts:269-271 | reads signer, nonce and fee, 36 octets |
| BytesReader.DeserializeFields | packages/transactions/src/wire/serialization.ts:291-329 | the loop over a counted list computes the decoding function of the list |
| BytesReader.DeserializeAuthField | packages/transactions/src/wire/serialization.ts:622-656 | the same for one field |
| BytesReader.DeserializePublicKey | packages/transactions/src/wire/serialization.ts:705-713 | the first octet decides the length of the key; an absent one fails |
| BytesReader.DeserializeMessageSignature | packages/transactions/src/wire/serialization.ts:610-619 | a signature must have its 65 octets |
| Pbkdf2.DerivesStandardKey | packages/encryption/src/pbkdf2.ts:124-145 | up to (2^32 - 1) hLen octets the fallback's key is that of section 5.2 of RFC 8018 |
| Pbkdf2.ShorterKeyIsPrefix | packages/encryption/src/pbkdf2.ts:124-145 | a shorter key is a prefix of a longer one, at every length |
| Pbkdf2.Derive | packages/encryption/src/pbkdf2.ts:105-146 | the loop over blocks, rewriting the salt block and cutting the last block, fills the array with the truncated concatenation of the blocks |
| Pbkdf2.DeriveBlock | packages/encryption/src/pbkdf2.ts:134-141 | one block is the exclusive or of all iterates, although the first iterate shares its array with the sum |
| Pbkdf2.XorInto | packages/encryption/src/pbkdf2.ts:138-140 | the inner loop is the exclusive or of two arrays, in place |
| Pbkdf2.SetClamped | packages/encryption/src/pbkdf2.ts:142 | copies what fits and leaves the rest alone |
| Pbkdf2.BlockIsNeeded | packages/encryption/src/pbkdf2.ts:130 | the number of blocks is the least that covers the key |
| AbiTypes.UniqueReadability | packages/transactions/src/contract-abi.ts:214-239 | types with names free of parentheses (spaces are allowed) that print alike are equal, at any depth |
| AbiTypes.TypesSplit | packages/transactions/src/contract-abi.ts:214-239 | a printed type determines the type and where it ends, whatever delimiter follows |
| AbiTypes.FunctionReadability | packages/transactions/src/contract-abi.ts:253-258 | functions with such names that print alike have the same access, name and arguments |
| AbiTypes.NamesWithParenthesesCollide | packages/transactions/src/contract-abi.ts:232-233 | two different tuple types that print alike, when a name contains parentheses |
| AbiTypes.DecimalReadable | packages/transactions/src/contract-abi.ts:222-226 | a length is printed in decimal digits without leading zeros that denote it |
| AbiTypes.BasicTypesInPrint | packages/transactions/src/contract-abi.ts:214-221 | the basic types in print |
| AbiTypes.BoundedTypesInPrint | packages/transactions/src/contract-abi.ts:222-235 | bounded types in print, with concrete lengths |
| AbiTypes.CompoundTypesInPrint | packages/transactions/src/contract-abi.ts:228-231 | optional and response types in print |
| AbiTypes.TuplesInPrint | packages/transactions/src/contract-abi.ts:232-233 | a tuple type in print |
| AbiTypes.FunctionsInPrint | packages/transactions/src/contract-abi.ts:253-258 | functions of every access in print; without arguments a space is left |
| AbiMatching.SubtypingIsContainment | packages/transactions/src/contract-abi.ts:289-374 | the structural order on types holds if and only if every value matching the first type matches the second |
| AbiMatching.SubtypeMatches | packages/transactions/src/contract-abi.ts:289-374 | a value of a type matches every supertype |
| AbiMatching.Separator | packages/transactions/src/contract-abi.ts:289-374 | where a type is not a subtype of another, some value matches the first only |
| AbiMatching.MatchType | packages/transactions/src/contract-abi.ts:289-374 | matchType decides the reference definition |
| AbiMatching.OctetsMatchBuffer | packages/transactions/src/contract-abi.ts:299-303 | octets, given in hexadecimal, match a buffer type if and only if they are no more than its length |
| AbiMatching.ValuesOfBoundedTypes | packages/transactions/src/contract-abi.ts:299-313 | which values buffer and string types of any length have |
| AbiMatching.ValuesOfBasicTypes | packages/transactions/src/contract-abi.ts:293-298 | which values uint128, int128 and bool have |
| AbiMatching.ValuesOfPrincipals | packages/transactions/src/contract-abi.ts:314-341 | which values principals, trait references and none have |
| AbiMatching.ValuesOfAlternatives | packages/transactions/src/contract-abi.ts:314-333 | an optional is none or some value of its type, a response a value of the one or an error of the other |
| AbiMatching.ValuesOfLists | packages/transactions/src/contract-abi.ts:342-347 | a list has no more items than its length, each of the element type |
| AbiMatching.ValuesOfTuples | packages/transactions/src/contract-abi.ts:348-370 | a tuple type with distinct names has the tuples with a value of the right type under each name, and with a repeated name none |
| AbiMatching.MatchItems | packages/transactions/src/contract-abi.ts:342-347 | all items of a list are checked |
| AbiMatching.MatchFields | packages/transactions/src/contract-abi.ts:348-370 | the loop that deletes from a clone accepts exactly when names are distinct and every declared field is present and matches |
| AbiMatching.RepeatedNameMatchesNothing | packages/transactions/src/contract-abi.ts:348-370 | a tuple type with a repeated name rejects every value |
| AbiMatching.FieldOrderIsIrrelevant | packages/transactions/src/contract-abi.ts:348-370 | reordering the declared fields changes nothing |
| AbiMatching.ExtraEntriesAreIgnored | packages/transactions/src/contract-abi.ts:348-370 | entries that are not declared make no difference |
| AbiMatching.ValidateContractCall | packages/transactions/src/contract-abi.ts:384-420 | a call is valid exactly when one function has the name and takes the arguments; each error is reported exactly in its case, with the first wrong argument |
| AbiMatching.NamedFinds | packages/transactions/src/contract-abi.ts:385 | the filter by name finds nothing if no function has it, the only one that does, or more than one |
| AbiMatching.WideningKeepsCalls | packages/transactions/src/contract-abi.ts:396-410 | arguments accepted for some types are accepted for wider ones |
| GaiaStorage.NoLostUpdate | packages/storage/src/storage.ts:499-508 | a checked write that takes effect replaces exactly the version recorded at the call, or creates an absent file, under any interference |
| GaiaStorage.AtMostOneWrite | packages/storage/src/storage.ts:596-609 | both attempts take effect if and only if the run is of one described kind, which needs a deletion by somebody else in between |
| GaiaStorage.WritingTwiceIsPossible | packages/storage/src/storage.ts:596-609 | a concrete run of that kind |
| GaiaStorage.LoneSessionStaysInSync | packages/storage/src/storage.ts:588-591 | over any run of reads, writes and deletions by a lone session, recorded and current versions agree before and after every call if and only if every call settles; then no precondition fails, and a write that is acted on and reported as a success succeeds |
| GaiaStorage.PutSyncsExactly | packages/storage/src/storage.ts:578-609 | putFile keeps a lone session in sync if and only if the deciding attempt is not acted on or truthfully reported with its tag; after a lost first success only an unchecked, truthfully reported retry does |
| GaiaStorage.DeleteSyncsExactly | packages/storage/src/storage.ts:644-657 | deleteFile does if and only if there is nothing to delete or the attempt that deletes is reported as a success; otherwise the record outlives the file |
| GaiaStorage.GetSyncsAlways | packages/storage/src/storage.ts:279-304 | getFile always does |
| GaiaStorage.ReliableRunsSettle | packages/storage/src/storage.ts:499-657 | with truthful replies every call of every run settles |
| GaiaStorage.LostReplyBreaksSync | packages/storage/src/storage.ts:596-609 | after a checked write that was acted on but not reported as a success with a tag, retried or not, the file has the new version and the record is the old one |
| GaiaStorage.AbsentFileStaysLost | packages/storage/src/storage.ts:644-657 | a recorded file that does not exist stays absent and recorded over all lone runs of checked calls |
| GaiaStorage.LostDeletionStaysLost | packages/storage/src/storage.ts:644-657 | so does a file of the session's own after a deletion that was acted on and reported as a failure |
| GaiaStorage.StaleWritesFail | packages/storage/src/storage.ts:503-508 | while recorded and current version differ a checked write fails and changes nothing |
| GaiaStorage.ReadRestoresSync | packages/storage/src/storage.ts:288-293 | whatever becomes of a read, it repairs an outdated record if and only if the file exists and the reply is a success with its tag |
| GaiaStorage.ReadYourWrites | packages/storage/src/storage.ts:269-304 | after a successful putFile and any calls and doings of others that concern other files, a read returns what was written, if and only if the hub is reached and its reply arrives |
| GaiaStorage.DeletedIsNotFound | packages/storage/src/storage.ts:644-657 | after a successful deleteFile and the like, a read fails, with a 404 if the hub is reached and its reply arrives |
| GaiaStorage.PutStores | packages/storage/src/storage.ts:499-610 | a putFile that succeeds leaves the file with its content, whatever others did meanwhile |
| GaiaStorage.WhatIsRead | packages/storage/src/storage.ts:269-304 | exactly when a read succeeds, and with what content |
| GaiaStorage.RunKeepsOtherFiles | packages/storage/src/storage.ts:499-657 | no run of calls changes a file that neither they nor others write or delete |
| GaiaStorage.UncheckedWritesLand | packages/storage/src/storage.ts:499-508 | without checking, a write that the hub acts on and reports as a success succeeds, whatever versions there are |
| GaiaStorage.ServerErrorIsNotRetried | packages/storage/src/storage.ts:596-609 | a first attempt that ends in a 5xx error is the only one |
| GaiaStorage.AttemptEffect | packages/storage/src/storage.ts:578-593 | an attempt writes exactly when the hub handles it and its precondition holds, and otherwise changes nothing and fails |
| GaiaStorage.Storage.PutFile | packages/storage/src/storage.ts:499-610 | changes hub and session as `PutOutcome` says, with the same writes |
| GaiaStorage.Storage.UploadFn | packages/storage/src/storage.ts:578-593 | one attempt changes hub and session as `Attempt` says |
| GaiaStorage.Storage.DeleteFile | packages/storage/src/storage.ts:644-657 | changes hub and session as `DeleteOutcome` says |
| GaiaStorage.Storage.GetFile | packages/storage/src/storage.ts:269-304 | returns the content and records the tag as `GetOutcome` says |
| GaiaHub.ServerErrorsAreFinal | packages/storage/src/hub.ts:274-304 | when the body of a failed response carries no status, only 401 and 409 are recoverable |
| GaiaHub.BodyStatusDecides | packages/storage/src/hub.ts:274-304 | a status in the body stands in for that of the response, for the seven statuses that get hub details |
| FileListing.ListsEverything | packages/storage/src/storage.ts:715-759 | with a callback that always agrees every name of every page is shown once, in order, and their number is returned, also after a failed first request |
| FileListing.HowListingEnds | packages/storage/src/storage.ts:684-760 | every listing, for any hub and callback: after pages whose names are all accepted, what one more request brings settles the result, the names shown, the stop and the number of requests |
| FileListing.EveryListingEnds | packages/storage/src/storage.ts:684-760 | there are always such pages and such a last request |
| FileListing.StopIsFirstRefusal | packages/storage/src/storage.ts:734-746 | a page is stopped at exactly where all names before are accepted and the next is turned down |
| FileListing.RepeatsFirstRequest | packages/storage/src/storage.ts:715-722 | a first request that fails is repeated once, and otherwise changes nothing but the number of requests |
| FileListing.CountReturned | packages/storage/src/storage.ts:734-759 | the number returned, exactly: the names shown, or on an early stop those accepted plus the null entries before the stop on its page |
| FileListing.RequestsAreBounded | packages/storage/src/storage.ts:692-696 | at most 65537 requests, whatever the hub serves |
| FileListing.ListFilesLoop | packages/storage/src/storage.ts:684-760 | returns the number, shows the names and makes as many requests as the specification `List` says |
| FileListing.VisitEntries | packages/storage/src/storage.ts:734-746 | the loop over a page stops at the first name the callback turns down, having been told that it accepts all before, and has shown the names up to it |
| CipherSize.PredictionIsExact | packages/encryption/src/ec.ts:306-342 | the predicted length is that of the JSON built, for unsigned content; for signed content it exceeds it by 144 minus the hexadecimal length of the signature |
| CipherSize.SizeCheckIsSafe | packages/storage/src/storage.ts:484-497 | what passes the check never exceeds the limit, and unsigned content that fits is never refused |
| CipherSize.EnvelopeSize | packages/encryption/src/ec.ts:239-270 | filling the empty envelope adds exactly the lengths of the values and no character to be escaped |
| CipherSize.SignedSize | packages/encryption/src/ec.ts:277-299 | nesting a JSON string adds its length and what escaping adds to it |
| CipherSize.Base64Size | packages/encryption/src/utils.ts:22-25 | the arithmetic is the length of the base64 text, which needs no escaping |
| CipherSize.Base64Vectors | packages/encryption/src/ec.ts:389 | test vectors of section 10 of RFC 4648 |
| EnvelopeReading.EnvelopeReadBack | packages/encryption/src/ec.ts:418-458 | what decryptECIES takes out of an encrypted upload, in either encoding, is every part that encryptECIES put in, each under its name |
| EnvelopeReading.SignedReadBack | packages/storage/src/storage.ts:388-424 | what the check of signed content takes out is the signature, its key, and the very text that was signed |
| EnvelopeReading.ObjectReadBack | packages/encryption/src/encryption.ts:79-93 | an object of any strings and booleans is read back from its JSON |
| EnvelopeReading.MembersOfEnvelope | packages/encryption/src/ec.ts:394-404 | what stands in the envelope under each name |
| EnvelopeReading.Base64RoundTrip | packages/encryption/src/ec.ts:386-392 | octets are read back from their base64 text |
| ByteEquality.EqualsConstTime | packages/encryption/src/ec.ts:120-129 | accumulating differences over all octets decides equality |
| HexCodec.HexRoundTrip | packages/common/src/utils.ts:531-566 | reading the hexadecimal form of octets gives them back |
| HexCodec.BytesToHex | packages/common/src/utils.ts:531-539 | the loop builds the hexadecimal form |
| HexCodec.HexToBytes | packages/common/src/utils.ts:549-566 | the loop parses pairs as parseInt does, failing exactly where a pair fails |
| HexCodec.IntToBytesExact | packages/common/src/utils.ts:446-467 | the octets denote the number; there are exactly `length` of them if and only if it is below 256^length |
| HexCodec.PrefixIsIgnored | packages/common/src/utils.ts:554-555 | a leading 0x makes no difference |
| HexCodec.ReadBackInt | packages/transactions/src/BytesReader.ts:78-82 | the number read from the octets is the one written, of any size |
| HexCodec.ToTwos | packages/common/src/utils.ts:475-486 | throws exactly outside the signed range; otherwise returns the residue of the number modulo 2^width |
| HexCodec.TwosRoundTrip | packages/common/src/utils.ts:475-509 | every number in the signed range of n octets survives two's complement and its hexadecimal form, in n octets |
| Varuint.DecodeAfterEncode | packages/encryption/src/varuint.ts:33-86 | at any offset, decoding an encoded safe integer gives it back if bit 31 is clear, and 2^32 less if it is set |
| Varuint.EncodingHasEncodingLength | packages/encryption/src/varuint.ts:89-93 | encodingLength is the number of octets written |
| Varuint.EncodingLayout | packages/encryption/src/varuint.ts:33-59 | the octets by position: the number itself below 253, or 253, 254 or 255 before two, four or eight octets, the lowest first |
| Varuint.DecodingLayout | packages/encryption/src/varuint.ts:61-86 | what is read from any octets, also from longer forms than needed and beyond the end, with signed words |
| Varuint.Encode | packages/encryption/src/varuint.ts:33-59 | fails exactly outside the safe integers, leaving the buffer alone; otherwise lays the encoding at the offset over the buffer given, or over a fresh zeroed one of the encoding's length |
| Varuint.EncodeInto | packages/encryption/src/varuint.ts:37-56 | all four branches lay the encoding over the buffer; nothing else changes |
| ByteBuffer.ReadUInt32LEIsSigned | packages/common/src/buffer.ts:94-101 | the shifted and combined octets are the little-endian number, read as signed |
| ByteBuffer.WriteUInt32LE | packages/common/src/buffer.ts:104-113 | lays four octets over the buffer, clipped at its end |
| ByteBuffer.WriteUInt16LE | packages/common/src/buffer.ts:64-69 | lays two octets over the buffer, clipped at its end |
| ByteBuffer.Store | packages/common/src/buffer.ts:53-56 | stores modulo 256, and outside the array not at all |
| ByteBuffer.WriteUInt32BE | packages/common/src/buffer.ts:82-91 | lays the four octets of the number modulo 2^32 over the buffer, clipped at its end |
| JsBits.BitsOfXorAndOr | packages/encryption/src/ec.ts:120-129 | the models of the bit operators set each bit as the operators do |
| MessageSignature.MessageLayout | packages/encryption/src/messageSignature.ts:13-21 | a framed message is the prefix, the encoded length and the message |
| MessageSignature.MessageRoundTrip | packages/encryption/src/messageSignature.ts:13-34 | for any prefix, decoding inverts encoding if and only if the length does not have bit 31 set below 2^33 |
| HelpText.FewestLines | packages/cli/src/argparse.ts:3349-3361 | no breaking of the words into lines within the limit has fewer lines |
| HelpText.GreedyStaysAhead | packages/cli/src/argparse.ts:3349-3361 | from any line being filled, no other breaking that is as far needs fewer lines for the rest |
| HelpText.FullerLineCostsAtMostOne | packages/cli/src/argparse.ts:3349-3361 | starting from a fuller line never saves a line and costs at most one |
| HelpText.WordsStayInOrder | packages/cli/src/argparse.ts:3349-3361 | the lines, read one after the other, are the words in order |
| HelpText.LinesRespectLimit | packages/cli/src/argparse.ts:3356-3360 | a line over the limit carries a single word |
| HelpText.OverlongFirstWordLeavesEmptyLine | packages/cli/src/argparse.ts:3356-3360 | the first line is empty if and only if the first word does not fit |
| HelpText.WrapWords | packages/cli/src/argparse.ts:3336-3361 | the loop, which measures the last line of the text built so far, renders the greedy breaking |
| HelpText.FormatHelpString | packages/cli/src/argparse.ts:3327-3366 | blank, literal and wrapped lines are formatted one by one |
| HelpText.EveryWordIsKept | packages/cli/src/argparse.ts:3327-3366 | the words of the formatted text are those of the help text, in order |
| HelpText.LiteralLinesStay | packages/cli/src/argparse.ts:3338-3347 | blank lines stay blank, and lines that start with four spaces or a word $ stay as they are |
| HelpText.RenderedIsIndented | packages/cli/src/argparse.ts:3330-3336 | every rendered line starts with the spaces of its indentation |
| HelpText.SplitJoins | packages/cli/src/argparse.ts:3328 | splitting into lines loses nothing but the line breaks |
| CommandArgs.KeywordsMayMove | packages/cli/src/argparse.ts:3712-3761 | an accepted line stays accepted, with the same result, when its pairs move anywhere among its words |
| CommandArgs.AcceptedLines | packages/cli/src/argparse.ts:3712-3761 | a line is accepted if and only if it is made of words, skipped flags, and pairs of a declared, not repeated name and a value that is not empty |
| CommandArgs.LinesWithoutKeywords | packages/cli/src/argparse.ts:3755-3786 | a line without keywords is accepted; its arguments, without flags but with a single dash, fill the slots one by one, and the other slots are undefined |
| CommandArgs.KeywordArgument | packages/cli/src/argparse.ts:3713-3754 | how the scan goes on at an argument with two dashes, or which error it ends with |
| CommandArgs.OutcomeOfItems | packages/cli/src/argparse.ts:3703-3792 | the result for a line of items depends on its words in order and on the map of its pairs only |
| CommandArgs.WordsFillOpenSlots | packages/cli/src/argparse.ts:3768-3786 | each keyword's value sits at its declared position, and the other slots take the positional arguments in order |
| CommandArgs.LeftoversAreUndefined | packages/cli/src/argparse.ts:3782-3785 | for all command lines the slots without a keyword after the last positional argument are undefined, if and only if the schema does not have both an unnamed argument and one named "undefined" |
| CommandArgs.ExtraWordsAreDropped | packages/cli/src/argparse.ts:3768-3786 | positional arguments beyond the open slots change nothing |
| CommandArgs.GetCommandArgs | packages/cli/src/argparse.ts:3703-3792 | the merge loop with its advancing index gives every slot the value that `Slot` defines by counting, or the scan's error |
| CommandArgs.ScanArgs | packages/cli/src/argparse.ts:3712-3761 | the scan loop computes `ScanFrom`, with the same error at the same argument |
| CommandArgs.LookupValue | packages/cli/src/argparse.ts:3727-3744 | the inner loop finds the next argument exactly for a declared name, and fails exactly when there is none |

## Left out

- Cryptographic primitives: secp256k1, SHA, HMAC, AES, RIPEMD and base58/c32 are parameters; `decryptECIES` and `decryptContent` are not modelled beyond what they take out of the envelope and the comparison of codes.
- `encodeAbiClarityValue`, `encodeClarityValue`, `getCLIOpts`, `alloc`, `equals`, `readBigUIntLE`, `concatBytes`, `setNonce`: short members that would add nothing hard.
- `fetch`, promises, timers, prompts, logging: a request is an event with a fate, and its response a value.
- Calls of one session that overlap in time: calls run one after the other, and other clients act between the requests of a call.
- The `.sig` file that `putFile` and `deleteFile` handle for signed, unencrypted files, and multi-player reads, which record another bucket's tag under the same path.
- The storage of sessions in `localStorage`; the session is the one shared object of an `InstanceDataStore`.
- Entity tags are never empty and never reused, and a hub refuses to delete a file that does not exist.
- Public keys are compared as octets, where `mutatingSignAppendMultiSig` compares their hexadecimal text and so distinguishes upper and lower case.
- Payloads, post-conditions and the recomputed fields of an inference payload in `txid` are part of the fixed octets of an `Envelope`.
- Nonces and fees that are negative, and the conversions that `intToBigInt` makes of other number types.
- A name on a command line, or in a tuple, that is a property of JavaScript's `Object.prototype`.
- ABI lengths from 1e21 on, which JavaScript prints with an exponent; negative or fractional lengths.
- JSON strings with unpaired surrogates; `wasString` and text lengths are taken in octets, as the callers give them.
- Cosigning.ResumingIsFaithful: leaves a collision of hashes as the alternative, because an abstract hash function may map everything to one value.
- Soundness.VerificationIsSound: leaves a collision of two scripts as the alternative, for the same reason.
- Soundness.SingleVerificationIsSound: leaves a collision of two keys, or of their witness programs, as the alternative.
- Soundness.VerifiedIsAuthorized: leaves the same collisions as the alternative.
- Soundness.InitialHashCovers: leaves a collision of two whole transactions as the alternative.
- Soundness.SignatureCoversTransaction: leaves that, or a collision of two signing inputs, as the alternative.
- Sittings.SittingsComplete: in the sequential modes, once a signature has been made, speaks only of standard transactions whose signatures are of compressed keys, because over others a new signer starts from a wrong hash; whether a signature made over a wrong hash can verify is a matter of the signature scheme.
