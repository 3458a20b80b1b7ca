# Verification of the TF-PSA-Crypto core protocols

Dafny models of the stateful and algorithmic parts of the library, each proved
against an independent definition of what it is for. Cryptographic primitives
are arbitrary functions (a hash of 32 bytes, a PRF of fixed length, a block
cipher with its inverse), so every result holds for all of them.

| files | subject |
|---|---|
| Bytes, Options | integers as bytes, exclusive or, memory copies |
| Hashing, LmotsSpec, Lmots, LmsSpec, Lms | stateful hash-based signatures of RFC 8554: Winternitz chains, the checksum, the Merkle tree in an array, authentication paths, the one-way leaf counter |
| KeyWrapSpec, KeyWrap | key wrap of SP 800-38F: the shift register and the in-place loops |
| KeyTypes, KeyRecord, KeySlots, KeySections, KeyProtocol, KeyLookup, KeyRuns, KeyStore | the key store: records in storage, slots and free lists, the locked sections as functions, their interleavings by any number of threads, the map of keys that a client sees, and the imperative operations |
| KdfSpec, KdfInputs, Kdf, EccDerive | key derivation: the streams of HKDF, the TLS 1.2 PRF and PBKDF2, the input state machines, the buffered generators, and the rejection loop for elliptic-curve keys |
| Policy | key usage policies, their intersection, and copies of keys |
| DerSpec, EcdsaDer | ECDSA signatures between raw and DER form |
| Aead | the multipart authenticated-encryption state machine |

Two layers recur. A `Spec` module defines what is to be computed (a tree, a
register, a stream, a grammar) and proves its laws. The module of the same name
without `Spec` follows the code: classes with the fields of the C structures,
loops over arrays with their invariants, the same checks in the same order. Its
contracts tie results and new states to the definitions. For the key store the
definitions are the mutex-protected sections themselves, as functions on the
state; `KeyProtocol`, `KeyLookup` and `KeyRuns` prove what every interleaving of
them keeps, and `KeyStore` proves that the code performs them: its rows below are
evidence of refinement, and the results about the store are those of the others.

A definition that the code merely repeats says little, so the `Spec` modules also
prove what their definitions depend on: that a hash input determines all its
parts and what it is for, that a signature is bound to its message, that equal
sources of key derivation come from equal inputs, how often a wrapped semiblock
passes through the cipher, which sequences of calls are accepted.

Failing drivers, random generators, allocations and storage operations are
parameters: `reliable`, `finishes`, `drives`, `allocates`, `arithmetic`, or records. A
contract says what happens when they succeed and when they do not.

Where the code and its documentation differ, the code is modelled:

- Key wrap with padding wraps up to 2^32 - 1 bytes, but unwrapping takes
  ciphertexts of at most 2^32 bytes, so the last seven lengths do not come back
  (`extras/nist_kw.c:371`; `KeyWrapSpec.UnwrapWrap`).
- Unwrapping clears the output on failure. When `psa_cipher_finish` fails on a
  one-block input of key wrap with padding, 16 bytes are cleared although an
  output of 8 is accepted (`extras/nist_kw.c:380-396` and `443-447`;
  `KeyWrap.ClearedWithin`, `KeyWrap.OneBlockCleanup`).
- `MBEDTLS_ECDSA_DER_MAX_SIG_LEN` is documented as enough for all signatures of
  a curve size. It is for numbers below 2^bits; the converter takes any numbers
  of as many bytes, and for all of those it is enough exactly when the size is a
  multiple of eight (`EcdsaDer.MaxSigLenForAll`).
- The intersection of two policies is documented as such, but a raw key
  agreement and the J-PAKE policy without a hash are permitted more than their
  intersections, and a minimum-length MAC policy combined with one that names
  the full length permits requests beyond the full length, which MAC operations
  refuse later (`Policy.IntersectionComplete`, `Policy.IntersectionSoundForAll`).
- Empty additional data is accepted for CCM before lengths are declared, and
  then they can no longer be declared (`Aead.EmptyAdEndsCcm`). No other accepted
  history is a dead end (`Aead.ExactlyCcmIsDead`).
- `psa_aead_setup` on a running operation returns an error and also aborts the
  operation (`Aead.Operation.Setup`).

## Model

| member | source | states |
|---|---|---|
| LmotsSpec.NonDomination | extras/lmots.c:83-94 | for two different digests whose checksum fits 16 bits, each checksummed digit string has a position strictly below the other, so advancing chains never turns one signature into another (RFC 8554, section 4.4) |
| LmotsSpec.ChecksumBound | extras/lmots.c:83-94 | the checksum is at most 255 per digest byte, so 16 bits hold it for every digest below 258 bytes; it is extreme only for the all-255 and all-zero digests |
| LmotsSpec.DigitStringNotExtreme | extras/lmots.c:119-177 | every checksummed digit string has a digit above 0 and a digit below 255 |
| LmotsSpec.ChainCompose | extras/lmots.c:238-280 | advancing a hash chain from a to b and then from b to c equals advancing it from a to c |
| LmotsSpec.ChainsMeet | extras/lmots.c:208-296 | for every digit string, chains taken from 0 to the digit and then from the digit to 255 are the chains of the public key |
| LmotsSpec.ChainNext | extras/lmots.c:238-280 | every position of a chain is the hash of the position before, of the number of the chain and of that position |
| LmotsSpec.SecretKeyBlock | extras/lmots.c:554-639 | every chain starts at the hash of its own number and the seed |
| LmotsSpec.OtsCorrect | extras/lmots.c:443-491 | the public key candidate of any signature is the real public key, for every key, message and randomizer (RFC 8554, sections 4.3, 4.5, 4.6) |
| LmotsSpec.OtsBinding | extras/lmots.c:443-491 | two signatures with one candidate key, over different messages or with different randomizers, make the verifier hash two different strings to the same value, or the first has a chain value from which hashing on reaches the one of the second |
| LmotsSpec.OneMessage | extras/lmots.c:119-177 | so a signature that leads to one key for two messages contains such a collision, or a chain value that returns to itself |
| LmotsSpec.OneSignature | extras/lmots.c:443-491 | for a message and a randomizer only one signature leads to a key, short of a collision |
| LmotsSpec.SigningAdvances | extras/lmots.c:713-724 | with the digits as upper bounds at least one chain is hashed, so signing overwrites the initial error status |
| LmotsSpec.VerifyingAdvances | extras/lmots.c:465-474 | with the digits as lower bounds at least one chain is hashed, so verification overwrites the initial error status |
| Lmots.ChecksumCalculate | extras/lmots.c:83-94 | the loop and the 16-bit return give the checksum, modulo 2^16 and exactly when it fits |
| Lmots.CreateDigitArrayWithChecksum | extras/lmots.c:119-177 | the digit array is the digest of I, q, the message type, C and the message, followed by its big-endian checksum |
| Lmots.HashDigitArray | extras/lmots.c:208-296 | the nested loops advance each of the 34 chains between its bounds; the status stays CORRUPTION_DETECTED exactly when no chain advances at all |
| Lmots.CalculatePublicKeyCandidate | extras/lmots.c:443-491 | returns the candidate key for every message and signature of the right length, and never its initial error |
| Lmots.LmotsPrivate.GeneratePrivateKey | extras/lmots.c:554-639 | derives every chain start from the seed as RFC 8554, Appendix A, or leaves the context without a key; refuses to overwrite a key |
| Lmots.LmotsPrivate.Sign | extras/lmots.c:677-765 | writes exactly the signature at the offset and nothing else, and erases the key; on failure neither the key nor the buffer changes |
| Lmots.LmotsPublic.CalculatePublicKey | extras/lmots.c:641-675 | stores the public key of the private key; without a private key nothing changes, and a failed hash changes neither the parameters nor whether a key counts as held, though perhaps its bytes |
| Lmots.LmotsPublic.Verify | extras/lmots.c:493-535 | accepts a signature only if its candidate is the stored key, and when drivers do not fail accepts all of those |
| Lmots.OtsSignatureAccepted | extras/lmots.c:493-535 | whatever is signed is accepted under the public key computed from the same private key |
| LmsSpec.TreeNodesHashTree | extras/lms.c:439-481 | an array whose nodes are those of the recursive tree has every inner node the hash of its two children |
| LmsSpec.SiblingRange | extras/lms.c:516-525 | below the root a node and its sibling (its number with the last bit flipped) are both nodes of the tree |
| LmsSpec.AuthPathBlock | extras/lms.c:516-525 | block i of an authentication path is the sibling of the leaf's ancestor i levels up |
| LmsSpec.FoldClimbs | extras/lms.c:389-413 | for any height, folding the path i levels with the left-right rule gives the tree node at index leaf >> i |
| LmsSpec.FoldReachesRoot | extras/lms.c:389-413 | for any height and leaf the fold ends at node 1 of the recursively defined tree |
| LmsSpec.LmsSignatureParts | extras/lms.c:304-421 | the verifier finds the leaf number, the one-time signature, the type fields and the path of a signature where the signer put them |
| LmsSpec.LmsCorrect | extras/lms.c:304-421 | every signature of every leaf, message and randomizer is accepted under the public key of the same private key (RFC 8554, sections 5.3, 5.4.1, 5.4.2) |
| LmsSpec.InputsDistinct | extras/lms.c:94-226 | no two uses of the hash function, for secrets, chain steps, one-time keys, messages, leaves and inner nodes, of any leaf and identifier, have the same input (RFC 8554, section 9.1) |
| LmsSpec.LeafSecrets | extras/lms.c:570-649 | each leaf has one-time secrets, chains and a public key of its own, under its number |
| LmsSpec.AcceptedLeaf | extras/lms.c:304-421 | what is accepted under the public key of a private key names a leaf of its tree, with the one-time key and the path of that leaf, short of a collision |
| LmsSpec.LmsBinding | extras/lms.c:304-421 | two accepted signatures of one leaf, over different messages or with different randomizers, contain a collision or a chain value that reaches one of the other signature |
| LmsSpec.LmsOneMessage | extras/lms.c:304-421 | one signature is accepted for one message only, short of a collision or of a chain value that returns to itself |
| LmsSpec.LmsOneSignature | extras/lms.c:304-421 | for a leaf, a message and a randomizer only one signature is accepted, short of a collision |
| LmsSpec.RunSignaturesAccepted | extras/lms.c:701-769 | over any run of signing calls, successful and failed, each signature is accepted under the public key computed at any other moment of the run |
| LmsSpec.RunLeavesIncrease | extras/lms.c:726-735 | of two successful calls the later one names a strictly larger leaf, whatever fails in between, so each one-time key signs at most once |
| LmsSpec.RunBounded | extras/lms.c:726-735 | the leaf counter advances by exactly the calls that consumed a leaf, which are at most 2^h |
| LmsSpec.RunKeepsKey | extras/lms.c:701-769 | signing never changes the identifier or the seed and never lowers the leaf counter |
| Lms.CreateMerkleLeafValue | extras/lms.c:94-146 | the leaf is the hash of I, the node number, the leaf type and the one-time public key |
| Lms.CreateMerkleInternalValue | extras/lms.c:170-226 | an inner node is the hash of I, its number, the inner type and its two children |
| Lms.CalculateMerkleTree | extras/lms.c:439-481 | the bottom-up fill of the flat array produces at every index the node of the recursively defined tree |
| Lms.GetMerklePath | extras/lms.c:495-534 | writes exactly the authentication path of the leaf at the offset; on failure the buffer is unchanged |
| Lms.FoldSignaturePath | extras/lms.c:389-413 | the loop that overwrites the candidate node in place computes the fold of the path |
| Lms.LmsPublic.ImportPublicKey | extras/lms.c:242-274 | succeeds on exactly the encodings of supported public keys and then holds the encoded key |
| Lms.LmsPublic.ExportPublicKey | extras/lms.c:276-302 | returns the encoding of the held key, or says exactly which check failed, for every context, freshly initialised ones too |
| Lms.EncodingInjective | extras/lms.c:276-302 | two public keys with the same encoding are equal, so import undoes export |
| Lms.LmsPublic.CalculatePublicKey | extras/lms.c:651-698 | stores the public key of the private context, however many signatures it has produced; without a private key or memory nothing changes, and after a failed hash only the parameters have |
| Lms.LmsPublic.Verify | extras/lms.c:304-421 | accepts a signature only if RFC 8554 does, and when drivers do not fail accepts all of those |
| Lms.LmsPrivate.GeneratePrivateKey | extras/lms.c:570-649 | on success holds every leaf's one-time keys derived from the seed and starts at leaf 0; on failure holds no key |
| Lms.LmsPrivate.Sign | extras/lms.c:701-769 | a leaf is consumed before anything can fail; on success the buffer starts with the signature of that leaf and is otherwise unchanged |
| Lms.LmsPrivate.Free | extras/lms.c:541-567 | leaves an empty context that any hash makes valid |
| Lms.SignatureAssembled | extras/lms.c:738-763 | the four writes of the signer, in their order, lay out the signature |
| KeyWrapSpec.StepsUndo | extras/nist_kw.c:257-284 | any number of inverse steps in descending order undoes the steps of W (SP 800-38F, section 6.1) |
| KeyWrapSpec.InverseStepsUndo | extras/nist_kw.c:192-210 | and the other way round, so both directions are inverse |
| KeyWrapSpec.WInverse | extras/nist_kw.c:192-284 | W and its inverse undo each other on every string of at least three semiblocks |
| KeyWrapSpec.XorCounterValue | extras/nist_kw.c:46-52 | as a number the register is combined with the step number by bitwise exclusive or |
| KeyWrapSpec.WPasses | extras/nist_kw.c:192-210 | for a cipher that treats the halves of its block separately, by any two functions: every semiblock but the first goes through the low half six times, the first through the high half before each of the counters 1 .. 6(n-1) is added |
| KeyWrapSpec.CountersRemain | extras/nist_kw.c:192-210 | where the high half changes nothing, A ends as itself combined with the exclusive or of all these counters |
| KeyWrapSpec.EncryptPasses | extras/nist_kw.c:163-210 | a string of one block goes through the cipher once, a longer one as in W |
| KeyWrapSpec.CheckedFormatted | extras/nist_kw.c:129-178 | the formatted plaintext, with its integrity value, length and padding, is checked back to the plaintext |
| KeyWrapSpec.FormattedChecked | extras/nist_kw.c:369-439 | whatever passes the integrity, length and zero-padding checks is the formatting of the result |
| KeyWrapSpec.UnwrapWrap | extras/nist_kw.c:309-456 | a wrapped plaintext unwraps to itself if and only if the mode is KW, or it is KWP and there are at most 2^32 - 8 bytes |
| KeyWrapSpec.LongestWrappingsRefused | extras/nist_kw.c:369-377 | a plaintext of 2^32 - 7 bytes is wrapped, and unwrapping refuses the result for its length |
| KeyWrapSpec.WrapUnwrap | extras/nist_kw.c:309-456 | whatever unwraps to a plaintext is the wrapping of that plaintext |
| KeyWrapSpec.AcceptsExactlyWrapped | extras/nist_kw.c:309-456 | unwrapping accepts exactly the image of wrapping |
| KeyWrap.CalcAXorT | extras/nist_kw.c:46-52 | xors the step number, big-endian, into the register A: its new value is the bitwise exclusive or of the old one and the number |
| KeyWrap.WrapStep | extras/nist_kw.c:192-210 | one turn of the loop: the buffer, read from the pointer round to it again, goes from one state of the shift register to the next |
| KeyWrap.BackAtStart | extras/nist_kw.c:192-210 | after its 6(n-1) steps the wrapping pointer is back at the start, so the rotation is the identity |
| KeyWrap.WrapInPlace | extras/nist_kw.c:192-210 | the in-place loop computes W for every number of semiblocks from three |
| KeyWrap.Wrap | extras/nist_kw.c:82-229 | the output is the wrapping of the input, or zeros; each error has its exact condition, also for a mode that is neither KW nor KWP |
| KeyWrap.UnwrapStep | extras/nist_kw.c:257-284 | one turn of the descending loop performs one inverse step on the rotated register |
| KeyWrap.UnwrapInPlace | extras/nist_kw.c:239-303 | the in-place loop computes the inverse of W and splits it into A and the rest |
| KeyWrap.CheckPadded | extras/nist_kw.c:407-439 | the wrapped-around padlen, its mask and the partial comparison accept exactly the well-formed paddings |
| KeyWrap.Unwrap | extras/nist_kw.c:309-456 | returns the plaintext exactly when the specification has one, zeroing what is left of its room; each error has its exact condition and clears exactly the stated number of bytes |
| KeyWrap.ClearedWithin | extras/nist_kw.c:443-447 | a failure clears no more than the room of the plaintext, and no more than the output, if and only if it is not the failing psa_cipher_finish of a one-block KWP input (whose output has fewer than 16 bytes) |
| KeyWrap.OneBlockCleanup | extras/nist_kw.c:380-396 | in that case, whatever output size from 8 to 15 is given, the bytes behind the output up to the sixteenth are zeroed |
| KeySlots.IdRoundTrip | core/psa_crypto_slot_management.c:127-151 | the identifier made of a slice and a slot index decodes to both and lies in the volatile range |
| KeySlots.IdFieldsDisjoint | core/psa_crypto_slot_management.c:127-136 | combining the fields by bitwise or is adding them |
| KeySlots.SlicesDouble | core/psa_crypto_slot_management.c:61-110 | each slice is twice as long as the one before and the longest fills the slot index field |
| KeySlots.FreeListWalk | core/psa_crypto_slot_management.c:531-568 | following the relative offsets from the head of any slice ends after at most as many steps as there are slots, and visits exactly the empty slots, each once |
| KeySlots.FreshSliceList | core/psa_crypto_slot_management.c:499-510 | a zeroed slice is a free list of all its slots |
| KeySlots.PopFreeList | core/psa_crypto_slot_management.c:511-528 | allocation takes the head and leaves the list of the rest |
| KeySlots.PushFreeList | core/psa_crypto_slot_management.c:531-568 | freeing links the slot in front of the list |
| KeyRecord.ParseFormat | core/psa_crypto_storage.c:236-315 | a stored record, with anything behind it, parses to the attributes and data it was made from |
| KeyRecord.ParseExactly | core/psa_crypto_storage.c:266-315 | a byte string parses to given attributes and data if and only if it starts with their record |
| KeyRecord.FormatKeyData | core/psa_crypto_storage.c:236-255 | fills the buffer with the record |
| KeyTypes.ExtendUsageBits | include/psa/crypto_struct.h:426-435 | extending usage flags sets the message flag that goes with a hash flag and no other bit |
| KeyStore.GlobalData.FreeKeySlot | core/psa_crypto_slot_management.c:531-568 | the slot becomes the head of its slice's list, or the corruption is reported, exactly as the section does |
| KeyStore.GlobalData.WipeKeySlot | core/psa_crypto.c:1136-1206 | wipes and frees the slot and reports a state or counter that should not be wiped |
| KeyStore.GlobalData.AllocateVolatileKeySlot | core/psa_crypto_slot_management.c:477-529 | the search loop and the list update take the section's slot or fail as it does |
| KeyStore.GlobalData.ReserveFreeKeySlot | core/psa_crypto_slot_management.c:571-655 | one pass over the cache finds the slot that the section reserves, evicting an unread key if need be |
| KeyStore.GlobalData.GetAndLockKeySlotInMemory | core/psa_crypto_slot_management.c:361-404 | the search loop finds and registers the section's slot |
| KeyStore.GlobalData.GetAndLockKeySlot | core/psa_crypto_slot_management.c:759-850 | lookup, reservation, load and registration together are the section of the protocol |
| KeyStore.GlobalData.UnregisterRead | core/psa_crypto_slot_management.c:852-884 | counts one reader less, wipes after the last reader of a dying slot, and reports anything else |
| KeyStore.GlobalData.PurgeKey | core/psa_crypto_slot_management.c:923-956 | empties a cached key nobody else reads, otherwise takes the registration back |
| KeyStore.GlobalData.DestroyLockedKey | core/psa_crypto.c:1233-1304 | marks the slot, removes its record and unregisters, or loses to an earlier destruction |
| KeyStore.GlobalData.FinishKeyCreation | core/psa_crypto.c:1875-1911 | saves a persistent key before the slot becomes FULL |
| KeyStore.GlobalData.WipeAllKeySlots | core/psa_crypto_slot_management.c:427-473 | run alone, frees every slice and resets every list, leaving storage as it was |
| KeyProtocol.InitialInv | core/psa_crypto_slot_management.c:406-425 | the initialised store satisfies the invariant |
| KeyProtocol.WipeEffect | core/psa_crypto.c:1136-1206 | wiping a slot with the state and count its callers promise succeeds, changes only that slot and keeps every free list |
| KeyProtocol.WipeReports | core/psa_crypto.c:1136-1206 | wiping zeroes the slot in any case and succeeds exactly for the last reader or the creator |
| KeyProtocol.UnregisterEffect | core/psa_crypto_slot_management.c:852-884 | unregistering from a slot that has a reader always succeeds and empties the slot exactly after the last reader of a PENDING_DELETION one |
| KeyProtocol.DestroyKeepsInv | core/psa_crypto.c:1208-1304 | destruction by a registered reader keeps the invariant, touches one slot and removes at most its record |
| KeyProtocol.FinishKeepsInv | core/psa_crypto.c:1875-1911 | finishing a creation keeps the invariant, whether or not the record can be saved |
| KeyProtocol.AbortKeepsInv | core/psa_crypto.c:1923-1941 | abandoning a creation keeps the invariant |
| KeyLookup.AllocateEffect | core/psa_crypto_slot_management.c:477-529 | allocation fails only for lack of room or memory, and otherwise takes an empty slot that nobody uses |
| KeyLookup.ReserveCacheEffect | core/psa_crypto_slot_management.c:571-655 | reserving succeeds exactly when a cache entry is empty or unread, and never takes any other |
| KeyLookup.StartKeepsInv | core/psa_crypto.c:1797-1845 | starting a creation keeps the invariant and gives the thread a slot nobody else holds or fills, or changes nothing |
| KeyLookup.StartExactly | core/psa_crypto.c:1797-1845 | a creation starts exactly when there is room: for a volatile key an empty slot or a slice to allocate, otherwise an empty cache entry or a loaded key without readers |
| KeyLookup.EvictableExactly | core/psa_crypto_slot_management.c:571-655 | what may be evicted is exactly a loaded key of the cache that no thread is registered to read |
| KeyLookup.FindExactly | core/psa_crypto_slot_management.c:361-404 | the search finds a loaded key exactly when it has the identifier |
| KeyLookup.LookupKeepsInv | core/psa_crypto_slot_management.c:759-850 | lookup keeps the invariant and storage, and touches no slot but the one it returns or evicts |
| KeyLookup.PurgeKeepsInv | core/psa_crypto_slot_management.c:923-956 | purging keeps the invariant and touches only the key it was asked about |
| KeyRuns.StepKeepsInv | core/psa_crypto.c:1208-1304 | every locked section of every thread keeps the invariant, and none ends in CORRUPTION_DETECTED |
| KeyRuns.RunNeverCorrupt | core/psa_crypto_slot_management.c:852-884 | no run of any number of threads ever reports corruption |
| KeyRuns.RunCounts | core/psa_crypto_slot_management.h:204-238 | at every moment of every run a slot's counter is the number of its holders, a PENDING_DELETION slot has one, and each free list is exactly the empty slots |
| KeyRuns.RunKeepsHeldKey | core/psa_crypto.c:1136-1206 | while a thread stays registered, the attributes and material in its slot do not change, whatever the others do |
| KeyRuns.StepKeepsFilling | core/psa_crypto.c:1797-1845 | a slot being filled is left alone by every other thread |
| KeyRuns.RunVolatileIds | core/psa_crypto_slot_management.c:127-151 | volatile keys that exist at the same time have different identifiers, each decoding to its own slot |
| KeyRuns.RunLoadedKeys | core/psa_crypto_slot_management.c:361-404 | at most one loaded key has a given identifier, and it is the map's entry for it, up to usage flags that the entry's own imply |
| KeyRuns.LookupReturnsView | core/psa_crypto_slot_management.c:759-850 | lookup returns the map's entry or fails, and succeeds exactly for an existing key that is in memory or for which there is room and the means to read it |
| KeyRuns.LookupShowsFlags | core/psa_crypto_slot_management.c:759-850 | the key found has the material and attributes of the entry, all its usage flags, and beyond these only flags that they imply; a key just loaded has all of those |
| KeyRuns.TooManyReaders | core/psa_crypto_slot_management.c:361-404 | at the largest reader count a lookup reports corruption and changes nothing |
| KeyRuns.StepKeepsView | core/psa_crypto_slot_management.c:571-682 | evictions, reloads, purges, releases, and creations until they are finished never change the map |
| KeyRuns.FinishAddsKey | core/psa_crypto.c:1875-1911 | finishing a creation adds exactly the new key, and succeeds exactly for a volatile key or for an identifier without an entry, material of 1 to 8191 bytes and working storage |
| KeyRuns.DestroyRemovesKey | core/psa_crypto.c:1208-1304 | destruction removes exactly the destroyed key |
| KeyRuns.RunKeepsEntry | core/psa_crypto_slot_management.c:571-682 | over any stretch of a run an entry changes only if its creation is finished or it is destroyed in that stretch |
| KdfSpec.AnswersContiguous | core/psa_crypto.c:6278-6367 | whatever the calls, what they deliver is one contiguous piece of the stream, and bytes delivered plus capacity never grow |
| KdfSpec.ChunkingIndependent | core/psa_crypto.c:6278-6367 | any way of splitting a request delivers what the single request delivers and leaves the same capacity |
| Kdf.OutputPieces | core/psa_crypto.c:6278-6367 | requests to an operation, one after the other, deliver together what one request of their total is served, and with reliable drivers all succeed exactly when that one is to be granted |
| Kdf.ServedJoins | core/psa_crypto.c:6278-6367 | two pieces served in a row are what one request for both is served |
| KdfSpec.NothingAfterRefusal | core/psa_crypto.c:6343-6367 | once a request is refused nothing is ever delivered again |
| KdfSpec.ProducedPrefix | core/psa_crypto.c:5841-5929 | whatever has left a block generator is a prefix of the one stream T(1) T(2) ... |
| KdfSpec.BlocksWithinLimit | core/psa_crypto.c:5866-5887 | a generator with bytes left to make is below its block counter's limit, and one within the limit has made no byte beyond the stream |
| KdfSpec.MadeMakes | core/psa_crypto.c:5889-6209 | block i of HKDF and of P_hash, and the U_1 of block i of PBKDF2, are what the stated call of the keyed primitive returns |
| KdfSpec.BlockKeyKeeps | core/psa_crypto.c:7412-7460 | a key that fits stands unchanged at the start of the block-level key, a longer HMAC key counts as its hash and another CMAC key as its PRF value |
| KdfSpec.HkdfApplications | core/psa_crypto.c:5889-5925 | HKDF makes two blocks, of any streams, by the same HMAC call if and only if their number, info, key and block before are the same |
| KdfSpec.TlsAIterates | core/psa_crypto.c:5934-6052 | the A(i) are iterates of one function |
| KdfSpec.TlsApplications | core/psa_crypto.c:5934-6052 | two blocks of P_hash come from the same HMAC call if and only if A(i), seed and key are the same |
| KdfSpec.PbkdfUIterates | core/psa_crypto.c:6134-6209 | the U_j are iterates of one function |
| KdfSpec.PbkdfSumParity | core/psa_crypto.c:6199-6204 | each bit of U_1 xor ... xor U_j is the parity of that bit over them |
| KdfSpec.Pbkdf2BlockParity | core/psa_crypto.c:6134-6209 | each bit of block i is the parity of that bit over as many U_j as the cost says |
| KdfSpec.Pbkdf2Applications | core/psa_crypto.c:6134-6209 | two blocks have the same U_1 call if and only if their number, salt and password key are the same |
| KdfInputs.InputsDetermineStream | core/psa_crypto.c:6993-7120 | whatever inputs were accepted, in whatever order, a ready operation generates the stream that its RFC defines for them |
| KdfInputs.AcceptedReflects | core/psa_crypto.c:7569-7667 | after any accepted inputs the context holds exactly what they gave, in the state that says so |
| KdfInputs.ExactlyAccepted | core/psa_crypto.c:7569-7667 | a sequence of inputs is accepted if and only if each is admissible (key type, length, memory) and they come in an order of the algorithm, given as a set of words |
| KdfInputs.ReadyExactly | core/psa_crypto.c:5841-5865 | output may start exactly when the inputs are complete |
| KdfInputs.DerivationBinds | core/psa_crypto.c:6993-7120 | no input is lost: equal sources come from equal inputs, up to HMAC's padding of the salt and collisions of the extraction |
| KdfInputs.PremasterParts | core/psa_crypto.c:7215-7300 | the premaster secret is the other secret, or as many zeros as the key has bytes, and the key, each behind its two-byte length |
| KdfInputs.PremasterBinds | core/psa_crypto.c:7215-7300 | so it determines both, up to zeros standing for no other secret |
| KdfInputs.StoredPasswordStream | core/psa_crypto.c:7412-7427 | the padded or hashed password that PBKDF2 keeps generates the stream of the password itself |
| Kdf.KeyDerivation.Setup | core/psa_crypto.c:6946-6990 | starts a blank operation with its algorithm's capacity and empty inputs, alone or behind a key agreement; the errors for a running operation, a raw agreement, anything else and unsupported algorithms are exact |
| Kdf.KeyDerivation.GetCapacity | core/psa_crypto.c:5814-5824 | reports the capacity of an operation that is not blank |
| Kdf.KeyDerivation.SetCapacity | core/psa_crypto.c:5826-5837 | capacity can only be lowered |
| Kdf.KeyDerivation.ProvideInput | core/psa_crypto.c:7569-7667 | an input is accepted exactly before output, if it is admissible and in order, and then recorded; a refused one aborts the whole operation |
| Kdf.HkdfRefill | core/psa_crypto.c:5889-5925 | with T(i) delivered to the last byte, one HMAC of T(i), info and the counter continues the stream |
| Kdf.KeyDerivation.HkdfRead | core/psa_crypto.c:5841-5929 | delivers the next bytes of T(1) T(2) ...; the last-block error happens only beyond the stream |
| Kdf.KeyDerivation.TlsNextBlock | core/psa_crypto.c:5934-6052 | makes A(i) and block i of P_hash from A(i-1), and fails exactly after block 255 |
| Kdf.KeyDerivation.TlsRead | core/psa_crypto.c:6054-6101 | delivers the next bytes of P_hash; corruption is reported only beyond 255 blocks |
| Kdf.KeyDerivation.Pbkdf2GenerateBlock | core/psa_crypto.c:6134-6209 | the iterated PRF and xor loop computes block i |
| Kdf.KeyDerivation.Pbkdf2Read | core/psa_crypto.c:6211-6275 | delivers the next bytes of T_1 T_2 ...; the 32-bit counter does not wrap within the stream |
| Kdf.KeyDerivation.OutputBytes | core/psa_crypto.c:6278-6367 | a granted request delivers the next bytes of the stream of the accepted inputs and spends as much capacity; a refused one, for any reason, leaves nothing to deliver; HKDF never runs out of blocks |
| Kdf.CapacityWithinStream | core/psa_crypto.c:6814-6897 | HKDF and PBKDF2 have as capacity what they can generate, PSK to master secret less; only the TLS 1.2 PRF has more |
| EccDerive.MaskReduces | core/psa_crypto.c:6450-6460 | clearing the excess bits of the first byte reduces the drawn number modulo 2^m |
| EccDerive.FirstAcceptedIsFirst | core/psa_crypto.c:6443-6475 | the number found is at most N - 2, every earlier draw was above it, and capacity was spent for exactly these draws |
| EccDerive.KeyFits | core/psa_crypto.c:6477-6480 | the key lies in [1, N-1] and is written without loss in as many bytes as the order has |
| EccDerive.DrawCandidate | core/psa_crypto.c:6443-6475 | one turn of the loop spends capacity and either takes the candidate or goes on behind it |
| EccDerive.GenerateDerivedKey | core/psa_crypto.c:6400-6492 | ends because each draw spends capacity; returns one more than the first acceptable candidate; an unknown group or a lack of memory touches nothing; when nothing else fails the only failure is that there is no candidate |
| Policy.IntersectionSound | core/psa_crypto.c:736-833 | the intersection permits no algorithm that one of the two policies forbids, for every MAC length the key allows |
| Policy.IntersectionSoundForAll | core/psa_crypto.c:736-833 | counting MAC requests beyond the full length too, exactly the named pairs let one through |
| Policy.PermitsMeaning | core/psa_crypto.c:835-929 | among requests within the MAC lengths of the key a policy permits exactly its algorithm, any hash, any longer tag or MAC, any derivation of its key agreement, as its family says |
| Policy.SpecificPermits | core/psa_crypto.c:835-929 | a policy that is no wildcard permits only itself, in either encoding of its MAC length, but for raw key agreements and J-PAKE without a hash |
| Policy.TooLongEscapes | core/psa_crypto.c:783-828 | for each such pair, a request that the intersection permits and a policy forbids |
| Policy.IntersectionComplete | core/psa_crypto.c:835-929 | the intersection permits everything that both policies permit, except exactly for raw key agreements and J-PAKE without a hash |
| Policy.IntersectionCommutative | core/psa_crypto.c:736-833 | the order of the policies does not matter |
| Policy.RestrictKeyPolicy | core/psa_crypto.c:986-1007 | replaces the policy by the intersection, or leaves it alone exactly when an algorithm of both sides has an empty one |
| Policy.RestrictedAtMost | core/psa_crypto.c:986-1007 | a restricted policy allows no flag and no algorithm that one of its origins forbids |
| Policy.RestrictedExactly | core/psa_crypto.c:986-1007 | it has exactly the flags of both, permits no algorithm that they do not both permit in one place and, but for the two exceptions, all of those |
| Policy.ExtendedFlags | include/psa/crypto_struct.h:426-435 | the flags that a copy may gain by being reloaded are those that the key store adds |
| Policy.CopiesNeverGain | core/psa_crypto.c:2057-2158 | however often a key is copied, and reloaded in between, the last copy allows no more than the original or any policy requested on the way |
| DerSpec.SignatureRoundTrip | core/psa_util.c:114-166 | decoding undoes encoding for every width and all non-zero r and s |
| DerSpec.DecodeComplete | core/psa_util.c:237-293 | every SEQUENCE of two acceptable INTEGERs that fill the input is decoded to their fixed-width forms |
| DerSpec.DecodeSound | core/psa_util.c:237-293 | nothing else is decoded |
| DerSpec.FixedWidthValue | core/psa_util.c:191-235 | the fixed-width form has the value of the INTEGER |
| DerSpec.AcceptableExactly | core/psa_util.c:191-235 | a coordinate is accepted if and only if it is the minimal INTEGER of a number below 256^w, or that behind one redundant zero |
| DerSpec.ContentExactly | core/psa_util.c:71-112 | what is written for a non-zero number is its minimal INTEGER |
| DerSpec.TagHeaderComplete | utilities/asn1parse.c:28-76 | a tag, any definite length in up to four bytes and that many bytes are parsed |
| DerSpec.TagHeaderSound | utilities/asn1parse.c:28-76 | whatever header is parsed consists of the tag and a definite length |
| EcdsaDer.WriteLen | utilities/asn1write.c:25-55 | writes the shortest length form just before the position and nothing behind it; too small a buffer is reported exactly |
| EcdsaDer.WriteTag | utilities/asn1write.c:57-66 | writes the tag just before the position |
| EcdsaDer.RawToDerSingleInt | core/psa_util.c:71-112 | writes the minimal INTEGER backwards, or reports a zero or a lack of room exactly |
| EcdsaDer.RawToDer | core/psa_util.c:114-166 | the buffer starts with the encoding of r and s; every error has its exact condition, with s checked before r |
| EcdsaDer.MaxSigLenSuffices | include/mbedtls/psa_util.h:113-133 | an encoding is no longer than the documented maximum if and only if the contents of its two INTEGERs are together no longer than two numbers of bits + 1 bits |
| EcdsaDer.BufferTooSmallImpossible | include/mbedtls/psa_util.h:130-133 | with a buffer of the documented size such a signature is converted exactly when both numbers are non-zero |
| EcdsaDer.MaxSigLenExactly | include/mbedtls/psa_util.h:113-133 | with a buffer of the documented size a pair of non-zero numbers is converted if and only if their INTEGER contents have that total length |
| EcdsaDer.MaxSigLenForAll | include/mbedtls/psa_util.h:113-133 | no raw signature of a curve size finds the documented size too small if and only if the curve size is a multiple of eight |
| EcdsaDer.AllOnesTooLong | include/mbedtls/psa_util.h:113-133 | for every other curve size the raw signature of all ones does |
| EcdsaDer.GetLen | utilities/asn1parse.c:28-59 | parses the length or reports the right error |
| EcdsaDer.GetTag | utilities/asn1parse.c:61-76 | parses the tag and length or reports the right error |
| EcdsaDer.DerToRawSingleInt | core/psa_util.c:191-235 | writes the coordinate to the right of the caller's zeros and touches nothing else, or reports the right error |
| EcdsaDer.DerToRaw | core/psa_util.c:237-293 | returns the decoded signature or the right error, and on error leaves the output alone |
| EcdsaDer.ConversionRoundTrip | core/psa_util.c:114-293 | whatever the first conversion accepts, the second gives back |
| Aead.HistoryIsOrdered | core/psa_crypto.c:5347-5535 | in every history of accepted calls one nonce comes before all data, lengths are declared at most once and before all data, and additional data comes before the body |
| Aead.TotalsWithinDeclared | core/psa_crypto.c:5412-5535 | declared lengths are never exceeded and no body starts before all the declared additional data |
| Aead.ExactlyWellFormed | core/psa_crypto.c:5226-5535 | a sequence of calls is accepted if and only if it has the stated form: that order, allowed lengths, data behind a nonce, totals within the declaration |
| Aead.Fragments | core/psa_crypto.c:5412-5535 | additional data and the body are accepted in two fragments exactly when they are in one |
| Aead.CompleteWhenFull | core/psa_crypto.c:5537-5553 | with lengths declared a message may be completed exactly when it has room for no further data |
| Aead.EmptyAdEndsCcm | core/psa_crypto.c:5433-5456 | empty additional data given to CCM before its lengths makes the operation impossible to complete |
| Aead.ExactlyCcmIsDead | core/psa_crypto.c:5347-5553 | an accepted history of any algorithm can be continued to a completed one if and only if it is not such a CCM history |
| Aead.CompletedMessages | core/psa_crypto.c:5537-5553 | over any run, a message that reaches finish or verify in the driver has exactly the declared lengths, in order, and with CCM declared ones |
| Aead.Operation.Setup | core/psa_crypto.c:5128-5208 | starts an operation or refuses with the right error, NOT_SUPPORTED for other algorithms included, aborting even a running one |
| Aead.Operation.Abort | core/psa_crypto.c:5652-5668 | leaves a zeroed operation |
| Aead.Operation.SetNonce | core/psa_crypto.c:5226-5259 | accepted exactly when the history has no nonce and the length is allowed; otherwise the operation is gone |
| Aead.Operation.GenerateNonce | core/psa_crypto.c:5262-5321 | as setting a nonce, for an encryption and a buffer that is large enough |
| Aead.Operation.SetLengths | core/psa_crypto.c:5347-5409 | accepted exactly when the history has no lengths and no data and the algorithm allows them |
| Aead.LengthLimits | core/psa_crypto.c:5347-5409 | in bits, the lengths that may be declared are those of NIST SP 800-38D for GCM; CCM bounds the additional data only, ChaCha20-Poly1305 nothing |
| Aead.Operation.UpdateAd | core/psa_crypto.c:5412-5465 | accepted exactly when the history has a nonce, no body, and room in the declared length |
| Aead.Operation.Update | core/psa_crypto.c:5469-5535 | accepted exactly when the history has a nonce, all declared additional data, and room in the declared length |
| Aead.Operation.FinalChecks | core/psa_crypto.c:5537-5553 | succeeds exactly when the history is complete |
| Aead.Operation.Complete | core/psa_crypto.c:5556-5649 | reaches the driver exactly with a complete history and the right direction, and ends the operation in any case |

## Left out

- KeyRuns.LookupReturnsView: the number of readers of a slot is taken to stay below SIZE_MAX, as for every section of the protocol; `KeyRuns.TooManyReaders` says what happens there.
- KeyStore.GlobalData.GetAndLockKeySlot: built-in keys and keys in external locations are not loaded, because platform and driver code decides what they are.
- KeyRuns.FinishAddsKey: a failed creation leaves the map alone only if the record it wrote could be confirmed or removed again; otherwise a record may stay in storage, as in the code.
- KeyStore.GlobalData.WipeAllKeySlots: only its effect when it runs alone; it is documented as not thread-safe.
- KeyWrap.Wrap: input and output buffers do not overlap, no buffer is larger than PTRDIFF_MAX, and the look-up and type check of the key are not modelled.
- KeyWrap.Unwrap: the same restrictions as for wrapping.
- Kdf.KeyDerivation.HkdfRead: here and in the other two read functions the context is passed and returned by value, so its state after a failed driver call is not described; the caller clears it.
- Kdf.KeyDerivation.OutputBytes: the ECJPAKE-to-PMS derivation, a single hash of one input, is not one of the streams.
- Kdf.KeyDerivation.ProvideInput: an input from a key object is its type and bytes; looking the key up and the permission to output keys are not modelled.
- Kdf.KeyDerivation.Setup: the key agreement that supplies a secret is not modelled, only the set-up of its derivation.
- EccDerive.GenerateDerivedKey: which curve has which order is not modelled; N and its bit length are a parameter, as is whether each big-number call succeeds.
- Montgomery-curve, DES and raw key derivation, and the verification of derived output.
- Policy.CopiesNeverGain: policies are those of `psa_copy_key`; the check for the COPY flag and the material copied are not part of it.
- Bit encodings of algorithm identifiers: policies use a datatype of families, with the six-bit length fields kept.
- EcdsaDer.DerToRaw: applying both conversions to a DER signature need not give it back, since redundant zeros and long length forms are accepted.
- Aead.Operation.Complete: wiping of output buffers by `psa_aead_finish` and the contents of messages are not modelled, only their lengths and order.
- Lmots.LmotsPrivate.Sign: the type field is written before the key is erased and the rest after it; only the final buffer is described.
- Fixed-size buffers inside C structures are sequences of their length, and zeroization beyond what later calls can read is not modelled.
- NULL pointer arguments, test hooks, mutex failures and the initialisation flags of the library.
- The statically sized key store and key owner identifiers, which are build options.
- The public key import and export of LM-OTS, whose encodings are one-line copies.
- The file-based storage back end: storage is a map whose operations may fail.
- One-shot AEAD, MAC and cipher calls, J-PAKE, interruptible operations and the pk layer, which are wrappers or small machines.
