# mls-rs in Dafny

Models of the parts of mls-rs, an implementation of Messaging Layer Security (RFC 9420), whose
correctness is hardest to see from the code, with proofs of what they promise:

- **Wire codec** (`Bytes`, `VarInt`, `Schema`, `Codec`, `CodecLaws`, `CodecTheorems`, `CodecLoops`,
  `ByteVecCodec`, `MapCodec`, `Credential`, `WireFormat`). Every type with an MLS codec is a schema; one size
  function, two encoders (with and without preallocation) and one decoder follow the Rust traits and
  the code that the derive macro emits. A derived struct is a right-nested pair, a field-less variant
  has an empty payload, a map value is the sequence of its entries in iteration order. A hash map may
  iterate in any order, so what is stated of it holds for every enumeration of the denoted map; an
  ordered map has its own decoder, which keeps the entries by key. `CodecLoops` is the same codec as
  the source runs it, with a writer that is appended to, a reader that is consumed, and loops.
- **HPKE** (`HpkeNonce`, `HpkeContext`, `HpkeRuns`, `HpkeKdf`, `DhKem`, `Hpke`, `HpkeRfc`; RFC 9180). AEAD, KDF
  and Diffie-Hellman are arbitrary functions; what is trusted of them is written as a hypothesis where
  it is used.
- **HKDF-Expand** of the WebCrypto provider (`Hkdf`; section 2.3 of RFC 5869).
- **Secret tree** (`TreeMath`, `KeyRatchet`, `SecretTree`, `SecretTreeRuns`,
  `SecretTreeAvailability`, `KeyPaths`; section 9 and appendix C of RFC 9420): message keys derived on demand
  from the epoch's encryption secret, each to be used once.
- **Collections and stores** (`AssocList`, `ExtensionList`, `SmallMap`, `EpochStore`, `PrefixQuery`)
  against mathematical maps and histories.
- **Certificate chains** (`CertificateChain`) over arbitrary parsing and signature functions.

`dafny verify dfyconfig.toml` checks everything.

## What the proofs found

Each of these is a lemma with the exact condition beside it.

- A vector of zero-width elements encodes as the empty vector, and its decoder never ends on
  non-empty content (`VectorTerminatesIff`, `EmptyElementsVanish`). The model gives such a loop the
  outcome `Diverges`.
- Map decoders accept bytes that are not canonical. A hash map's bytes are an encoding of it if and
  only if no key repeats (`HashMapCanonicalIff`, `RepeatedKeyIsAccepted`), an ordered map's if and only
  if the keys ascend (`BTreeMapCanonicalIff`, `UnsortedIsAccepted`).
- The build without the standard library reads another map from such bytes than the build with it,
  unless the first and the last binding of every key agree (`BuildsAgreeIff`,
  `BuildsDisagreeOnRepeatedKey`).
- A custom credential numbered 1 or 2 does not survive encoding (`RoundTripIff`).
- `ExtensionList::append` keeps the old value and can repeat a type, unlike its documentation
  (`AppendKeepsOldValue`, `Append`); it does what is documented if and only if shared types carry equal
  data (`AppendUpdatesIff`). On lists that repeat a type equality need not be symmetric
  (`EqualNotSymmetricOnDuplicates`; exactly when it is: `EqualOnAnyLists`).
- The comment in `compute_nonce` says four bytes; the code folds in eight, and eight are needed
  (`NonceInjectiveIff`).
- The `u8` counter of HKDF-Expand is incremented once more than it is used: with overflow checks 255
  blocks, which the RFC allows, panic (`CheckedIsRfcIff`); without them nothing stops longer requests,
  which the RFC forbids (`UncheckedIsRfcIff`).
- Rejection sampling makes 255 tries, one fewer than RFC 9180 (`AgreesWithRfcIff`, `SearchesDiffer`).
- Prefix queries are wrong for prefixes with `$`, which is not escaped, and ignore ASCII case
  (`ExactUpToCaseIff`, `ExactIff`).
- Retention follows the last inserted epoch id, not the largest. The stored epochs are the latest ones
  if and only if no write leaves an id in the last id's window that lies below the largest id's
  (`WriteKeepsWindowIff`, over runs `RunRefinesHistoryIff`; `DescendingInsertsKeepMore`).
- With retention zero a write leaves nothing only if no id exceeds its last one
  (`ZeroRetentionEmptiesIff`).
- A request that the secret tree refuses takes the leaf out of service in that tree: a replayed
  generation does (`ReplayDisablesLeaf`), and a leaf stays in service if and only if every call for it
  was servable, which the calls and the key derivation decide beforehand (`ServiceableIff`). A node
  whose children cannot be derived takes all leaves below it along. No key is ever repeated all the
  same (`KeysAreRightAndUsedOnce`).
- The climb from a leaf to the root of the tree ends for every leaf if and only if the leaf count is a
  power of two (`ClimbEndsIff`).

## Model

| member | source | states |
|---|---|---|
| VarInt.CountBytesRanges | mls-rs-codec/src/varint.rs:102-110 | the three header lengths by value range, and that the panic branch is exactly the values above 2^30-1 |
| VarInt.Decode | mls-rs-codec/src/varint.rs:70-92 | no input drives decoding into the panic branch of the length function; a result is at most 2^30-1 and consumes at least one byte |
| VarInt.RoundTrip | mls-rs-codec/src/varint.rs:49-92 | decoding a header followed by anything returns the number and leaves what follows |
| VarInt.Canonical | mls-rs-codec/src/varint.rs:84-90 | what a successful decode consumed is the minimal header of its result |
| VarInt.AcceptsExactlyHeaders | mls-rs-codec/src/varint.rs:49-92 | headers and numbers up to 2^30-1 are in bijection |
| VarInt.PrefixFree | mls-rs-codec/src/varint.rs:49-68 | no header is a prefix of another |
| Schema.FindVariant | mls-rs-codec-derive/src/lib.rs:178-202 | the arm that the generated match selects is the first with the discriminant, or none has it |
| CodecLaws.SizeExact | mls-rs-codec/src/lib.rs:56-59 | for every schema and value the computed length is the number of bytes written |
| CodecLaws.EncodeOkIffFits | mls-rs-codec/src/iter.rs:42-59 | encoding succeeds exactly when every collection at every depth holds at most 2^30-1 bytes |
| CodecLaws.FailureShowsInSize | mls-rs-codec/src/iter.rs:9-18 | a value that does not encode has a computed size above 2^30-1 |
| CodecLaws.PreallocatedAgrees | mls-rs-codec/src/iter.rs:20-59 | the encoder that trusts computed sizes and the one that buffers give the same bytes and the same failures on every value |
| CodecLaws.RoundTrip | mls-rs-codec-derive/src/lib.rs:166-271 | for every schema with elements of at least one byte, decoding an encoding followed by anything returns the value and leaves what follows |
| CodecLaws.ItemsRoundTrip | mls-rs-codec/src/vec.rs:47-62 | the element loop reads back the items that were written |
| CodecLaws.DecodeTyped | mls-rs-codec-derive/src/lib.rs:178-203 | whatever is decoded is a value of the schema, maps with distinct keys included |
| CodecLaws.Canonical | mls-rs-codec/src/iter.rs:61-84 | for map-free schemas the consumed bytes are the encoding of the result |
| CodecLaws.ItemsCanonical | mls-rs-codec/src/vec.rs:51-61 | content that decodes to items is their encoding |
| CodecTheorems.DecodeTerminates | mls-rs-codec/src/vec.rs:55-57 | with elements of at least one byte, decoding ends on every byte string |
| CodecTheorems.VectorTerminatesIff | mls-rs-codec/src/vec.rs:55-57 | the element loop ends on every input if and only if an element takes at least one byte |
| CodecTheorems.EmptyElementsVanish | mls-rs-codec/src/vec.rs:28-35 | a vector of zero-width elements encodes like the empty one |
| CodecTheorems.PrefixFree | mls-rs-codec-derive/src/lib.rs:205-271 | no encoding is a prefix of another, and different values encode differently |
| CodecTheorems.DecodeIffEncoding | mls-rs-codec/src/iter.rs:61-84 | for map-free schemas decoding accepts exactly the encodings |
| CodecTheorems.StructCodec | mls-rs-codec-derive/src/lib.rs:247-271 | a derived struct is its fields in order, and decodes back field by field |
| CodecTheorems.RefHashInputInjective | mls-rs/src/hash_reference.rs:16-22 | no two label-value pairs are hashed as the same bytes, or as a prefix of one another |
| CodecTheorems.SignInputInjective | mls-rs/src/signer.rs:13-37 | no two label-content pairs are signed as the same bytes, or as a prefix of one another |
| WireFormat.EncodesIffSpelled | mls-rs-codec-derive/src/lib.rs:205-271 | the encoder writes exactly the bytes that the grammar of section 2.1 of RFC 9420 gives a value: big-endian integers, option markers 0 and 1, fields in order, lengths in front of collections, discriminants first |
| WireFormat.TruncationIsRefused | mls-rs-codec/src/iter.rs:61-84 | every proper prefix of an encoding is refused for want of bytes |
| WireFormat.UnknownMarker | mls-rs-codec/src/option.rs:32-36 | an option marker above 1 is refused and named |
| WireFormat.UnknownDiscriminant | mls-rs-codec-derive/src/lib.rs:178-202 | a discriminant that no variant has is refused |
| WireFormat.OversizeLength | mls-rs-codec/src/iter.rs:9-18 | the computed length of content beyond 2^30-1 bytes counts one header byte |
| WireFormat.HeaderExamples | mls-rs-codec/src/varint.rs:176-189 | the headers of the examples of RFC 9000 |
| WireFormat.SignInputBytes | mls-rs/src/signer.rs:13-37 | what is signed is `MLS 1.0 ` and the label, then the content, each behind its length |
| WireFormat.RefHashInputBytes | mls-rs/src/hash_reference.rs:16-22 | what is hashed is the label, then the value, each behind its length |
| CodecLoops.Writer.constructor | mls-rs-codec/src/lib.rs:86-96 | a new buffer is empty |
| CodecLoops.Writer.Extend | mls-rs-codec/src/lib.rs:81-83 | bytes are appended and what was there is kept |
| CodecLoops.EncodeHeader | mls-rs-codec/src/varint.rs:49-68 | the in-place marking appends the header |
| CodecLoops.DecodeHeader | mls-rs-codec/src/varint.rs:70-92 | the shifting loop returns the decoded number, the rest, or the error |
| CodecLoops.EncodeByteVec | mls-rs-codec/src/byte_vec.rs:25-39 | appends header and bytes, or fails and has only added bytes |
| CodecLoops.EncodeBuffered | mls-rs-codec-derive/src/lib.rs:205-271 | appends exactly the encoding, or fails with its error and has only added bytes |
| CodecLoops.EncodeCollectionBuffered | mls-rs-codec/src/iter.rs:42-59 | the buffering loop appends the collection's encoding |
| CodecLoops.EncodeInPlace | mls-rs-codec-derive/src/lib.rs:205-271 | as built with preallocation: appends exactly the encoding, or fails and has only added bytes |
| CodecLoops.EncodeCollectionInPlace | mls-rs-codec/src/iter.rs:20-40 | the preallocating loop appends a header from computed sizes and then the items |
| CodecLoops.SplitReader | mls-rs-codec/src/iter.rs:74-84 | reads the header and takes the content off the reader, or fails with the split's error |
| CodecLoops.DecodeReader | mls-rs-codec-derive/src/lib.rs:178-203 | returns the decoded value and the advanced reader, or the error |
| CodecLoops.DecodeVecLoop | mls-rs-codec/src/vec.rs:51-61 | the loop's items, error or divergence are those of the recursive decoder |
| CodecLoops.DecodeMapLoop | mls-rs-codec/src/map.rs:40-50 | inserting while decoding gives the entries of decoding first and inserting then |
| ByteVecCodec.FastPathEncodes | mls-rs-codec/src/byte_vec.rs:10-39 | the byte-string fast path has the size, bytes and failures of the generic vector at `u8` |
| ByteVecCodec.FastPathDecodes | mls-rs-codec/src/byte_vec.rs:42-56 | it has its values, rest and errors too, on every input |
| MapCodec.InsertAllRefinesUpdate | mls-rs-codec/src/map.rs:44-46 | the insertion loop refines updates of a mathematical map: the last binding of a key wins |
| MapCodec.DecodedMap | mls-rs-codec/src/map.rs:40-50 | whatever is accepted denotes the map of its entries in wire order |
| MapCodec.AnyOrderRoundTrips | mls-rs-codec/src/map.rs:24-51 | a map encoded in any enumeration order of its entries decodes to that map |
| MapCodec.HashMapCanonicalIff | mls-rs-codec/src/map.rs:40-50 | accepted bytes are an encoding of the decoded hash map, in some iteration order, if and only if no key was repeated |
| MapCodec.TreeDecodedMap | mls-rs-codec/src/map.rs:78-88 | an ordered map decodes to the same denoted map, and iterates in key order |
| MapCodec.TreeRoundTrips | mls-rs-codec/src/map.rs:63-88 | from any enumeration order an ordered map decodes to its entries by key; encoded by key it is read back as it was |
| MapCodec.BTreeMapCanonicalIff | mls-rs-codec/src/map.rs:63-88 | accepted bytes are the encoding of the decoded ordered map if and only if the keys on the wire strictly ascend |
| MapCodec.UnsortedIsAccepted | mls-rs-codec/src/map.rs:78-88 | bytes with keys out of order decode to an ordered map that encodes as other bytes |
| MapCodec.RepeatedKeyIsAccepted | mls-rs-codec/src/map.rs:44-46 | bytes with a repeated key decode, and are not the encoding of any map |
| Credential.SizeIsExact | mls-rs-core/src/identity/credential.rs:189-200 | the computed length is the number of bytes written |
| Credential.RoundTripIff | mls-rs-core/src/identity/credential.rs:202-229 | a credential survives encoding and decoding if and only if it is not a custom one numbered 1 or 2 |
| Credential.CustomBasicIsBasic | mls-rs-core/src/identity/credential.rs:202-213 | a custom credential numbered 1 encodes like the basic one with its data |
| Credential.CanonicalCredential | mls-rs-core/src/identity/credential.rs:215-229 | whatever is accepted is the encoding of the result, which is never a custom one numbered 1 or 2 |
| WireFormat.CredentialBytes | mls-rs-core/src/identity/credential.rs:202-213 | a basic or custom credential is two bytes of type and the data behind its length |
| WireFormat.ChainBytes | mls-rs-core/src/identity/credential.rs:202-213 | a certificate chain is type two and the certificates, each behind its length, behind their length |
| ExtensionList.EqualIffSameMap | mls-rs-core/src/extension/list.rs:33-40 | on unique types, one-directional equality is equality of the type-to-data maps |
| ExtensionList.EqualIsEquivalence | mls-rs-core/src/extension/list.rs:33-40 | it is reflexive, symmetric and transitive there |
| ExtensionList.EqualOnAnyLists | mls-rs-core/src/extension/list.rs:33-40 | on any lists equality is transitive, and holds backwards if and only if the right list has no further type and repeats types with equal data only; a left list with unique types suffices |
| ExtensionList.EqualNotSymmetricOnDuplicates | mls-rs-core/src/extension/list.rs:33-40 | a pair of lists on which it holds in one direction only |
| ExtensionList.ExtensionList.constructor | mls-rs-core/src/extension/list.rs:91-93 | a new list denotes the empty map |
| ExtensionList.ExtensionList.Get | mls-rs-core/src/extension/list.rs:147-152 | returns the denoted map's entry |
| ExtensionList.ExtensionList.Set | mls-rs-core/src/extension/list.rs:132-143 | updates the denoted map and keeps types unique |
| ExtensionList.ExtensionList.Extend | mls-rs-core/src/extension/list.rs:69-87 | updates the denoted map element by element and keeps types unique |
| ExtensionList.ExtensionList.Remove | mls-rs-core/src/extension/list.rs:156-158 | removes the type from the denoted map and keeps types unique |
| ExtensionList.ExtensionList.Append | mls-rs-core/src/extension/list.rs:164-166 | concatenates, and keeps types unique if and only if the lists share none |
| ExtensionList.AppendUpdatesIff | mls-rs-core/src/extension/list.rs:160-166 | appending a list with unique types updates the denoted map, as documented and as `extend` does, if and only if shared types carry equal data |
| ExtensionList.AppendKeepsOldValue | mls-rs-core/src/extension/list.rs:160-166 | after appending a list with the same type, lookups still return the old value |
| ExtensionList.DecodeListLoop | mls-rs-core/src/extension/list.rs:44-65 | the loop stops at the first repeated type |
| ExtensionList.DecodeListIff | mls-rs-core/src/extension/list.rs:42-67 | decoding accepts exactly the encodings of lists with unique types |
| WireFormat.ExtensionBytes | mls-rs-core/src/extension.rs:108-115 | an extension is two bytes of type and the data behind its length |
| ExtensionList.RunRefinesMap | mls-rs-core/src/extension/list.rs:42-158 | every sequence of set, extend, from, remove and decode keeps types unique and refines the same calls on a map |
| SmallMap.SmallMap.constructor | mls-rs/src/map.rs:70-74 | a new map has no entries |
| SmallMap.SmallMap.Position | mls-rs/src/map.rs:64-66 | the position of the first entry with the key, or none |
| SmallMap.SmallMap.Get | mls-rs/src/map.rs:49-51 | the value of that entry |
| SmallMap.SmallMap.Insert | mls-rs/src/map.rs:53-58 | overwrites that entry, or adds one at the end |
| SmallMap.SmallMap.Remove | mls-rs/src/map.rs:60-62 | takes out that entry and returns its value |
| SmallMap.RunRefinesMap | mls-rs/src/map.rs:47-67 | every sequence of inserts and removals keeps keys unique and agrees with a mathematical map |
| SmallMap.RunThenGet | mls-rs/src/map.rs:47-67 | from empty, every lookup after every run is the mathematical one |
| SmallMap.BuildsAgreeIff | mls-rs/src/map.rs:90-98 | the vector build and the hash map build accept the same bytes, and read the same map from them if and only if the first and the last binding of every key carry the same value |
| SmallMap.BuildsDisagreeOnRepeatedKey | mls-rs/src/map.rs:90-98 | from a key repeated with another value the vector build finds the first and the hash map build the last |
| HpkeNonce.ComputeNonce | mls-rs-crypto-hpke/src/context.rs:188-199 | the reversed in-place loop computes the nonce |
| HpkeNonce.NonceIsRfc | mls-rs-crypto-hpke/src/context.rs:188-199 | which is the base nonce xor the big-endian counter of section 5.2 of RFC 9180, at every length |
| HpkeNonce.NonceInjective | mls-rs-crypto-hpke/src/context.rs:188-199 | with eight bytes or more, different counters give different nonces |
| HpkeNonce.NonceInjectiveIff | mls-rs-crypto-hpke/src/context.rs:188-199 | and with fewer they do not |
| HpkeContext.EncryptionContext.New | mls-rs-crypto-hpke/src/context.rs:165-183 | matching lengths give a context at counter zero, others the error that names the mismatch |
| HpkeContext.EncryptionContext.IncrementSeq | mls-rs-crypto-hpke/src/context.rs:202-210 | the counter moves by one, or stays at its last value and the call fails |
| HpkeContext.EncryptionContext.Seal | mls-rs-crypto-hpke/src/context.rs:213-223 | seals under the current nonce, then increments; a failure of either changes nothing |
| HpkeContext.EncryptionContext.Open | mls-rs-crypto-hpke/src/context.rs:226-236 | opens under the current nonce, then increments; a failure of either changes nothing |
| HpkeContext.StepsSucceedIff | mls-rs-crypto-hpke/src/context.rs:202-236 | a call succeeds exactly when the cipher does under the current nonce and the counter is below 2^64-1; then the counter moves by one, else nothing changes |
| HpkeRuns.RunKeepsInv | mls-rs-crypto-hpke/src/context.rs:202-236 | every run, with an unforgeable cipher, keeps the invariant between both counters, the sealed and the delivered messages |
| HpkeRuns.DeliveredIsPrefix | mls-rs-crypto-hpke/src/context.rs:202-236 | in every interleaving of seals and of opens of arbitrary ciphertexts, what was delivered is a prefix of what was sealed |
| HpkeRuns.CountersCountSuccesses | mls-rs-crypto-hpke/src/context.rs:202-236 | in every run, forgeries included, each counter is the number of its successful calls |
| HpkeRuns.NoncesNeverRepeat | mls-rs-crypto-hpke/src/context.rs:188-223 | no two returned ciphertexts share a nonce, up to and including the counter's overflow |
| HpkeRuns.SealThenOpenDeliversAll | mls-rs-crypto-hpke/src/context.rs:213-236 | what was sealed, in any number, is delivered when opened in order |
| HpkeKdf.ExtractInputsSeparate | mls-rs-crypto-hpke/src/kdf.rs:39-51 | an extraction input determines suite, label and key material: KEM and key schedule never meet, nor do two labels |
| HpkeKdf.ExpandInputsSeparate | mls-rs-crypto-hpke/src/kdf.rs:55-72 | an expansion input determines suite, label, info and the length modulo 2^16 |
| HpkeKdf.ExtractNeverExpand | mls-rs-crypto-hpke/src/kdf.rs:39-72 | no input serves both |
| HpkeKdf.LengthsWrap | mls-rs-crypto-hpke/src/kdf.rs:62-63 | lengths that differ by 2^16 share an input |
| DhKem.DecapUndoesEncap | mls-rs-crypto-hpke/src/dhkem.rs:104-146 | with a commuting group and matching keys, decapsulation returns the encapsulated secret |
| DhKem.EncapBinds | mls-rs-crypto-hpke/src/dhkem.rs:104-124 | equal shared secrets of two encapsulations mean equal Diffie-Hellman outputs and public keys, or a KDF collision between their inputs |
| DhKem.DecapBinds | mls-rs-crypto-hpke/src/dhkem.rs:126-146 | so of two decapsulations |
| HpkeRfc.KemIsRfc | mls-rs-crypto-hpke/src/dhkem.rs:104-146 | both are the pseudocode of section 4.1 of RFC 9180, labels as text |
| DhKem.Derive | mls-rs-crypto-hpke/src/dhkem.rs:78-90 | a key pair from key material: the outcome of the search, or the directly expanded key, with a matching public key |
| HpkeRfc.DeriveIsRfc | mls-rs-crypto-hpke/src/dhkem.rs:78-207 | the key material and the directly expanded key are those of section 7.1.3 |
| HpkeRfc.CandidateIsRfc | mls-rs-crypto-hpke/src/dhkem.rs:164-170 | a candidate is the RFC's expansion with the bitmask on the first byte only |
| DhKem.DeriveWithRejectionSampling | mls-rs-crypto-hpke/src/dhkem.rs:157-186 | the loop returns the outcome of the search over candidates 0 to 254, with a matching public key |
| DhKem.SearchFindsFirst | mls-rs-crypto-hpke/src/dhkem.rs:163-182 | a key is found if and only if it is the first usable candidate, all lower ones being rejected |
| DhKem.AgreesWithRfcIff | mls-rs-crypto-hpke/src/dhkem.rs:162-186 | the outcome is that of the RFC's 256 tries if and only if an earlier candidate decides or the last is rejected too |
| DhKem.SearchesDiffer | mls-rs-crypto-hpke/src/dhkem.rs:162-186 | there are a group and a KDF for which the two outcomes differ |
| Hpke.SetupAgrees | mls-rs-crypto-hpke/src/hpke.rs:163-307 | from the sender's `enc` the receiver sets up the same key, base nonce and exporter secret, or fails with the same error |
| Hpke.ExportsAgree | mls-rs-crypto-hpke/src/context.rs:71-77 | every export of the two sides is the same |
| Hpke.SessionDeliversPrefix | mls-rs-crypto-hpke/src/hpke.rs:163-232 | after setup, in every run of both sides, what the receiver delivers is a prefix of what the sender sealed |
| Hpke.OpenUndoesSeal | mls-rs-crypto-hpke/src/hpke.rs:115-155 | single-shot open returns what single-shot seal encrypted |
| HpkeRfc.KeyScheduleIsRfc | mls-rs-crypto-hpke/src/hpke.rs:234-327 | key, base nonce and exporter secret are those of the key schedule of section 5.1, with mode 0 or 1; a PSK is refused exactly when it has fewer than 32 bytes |
| HpkeRfc.SetupSenderIsRfc | mls-rs-crypto-hpke/src/hpke.rs:163-186 | the sender's context is the RFC's, from the Diffie-Hellman output, both public keys, info and PSK |
| HpkeRfc.SetupReceiverIsRfc | mls-rs-crypto-hpke/src/hpke.rs:190-210 | so is the receiver's |
| HpkeRfc.ExportIsRfc | mls-rs-crypto-hpke/src/context.rs:71-77 | an export is that of section 5.3 |
| HpkeRfc.SealIsRfc | mls-rs-crypto-hpke/src/hpke.rs:115-129 | a single-shot ciphertext is sealed with the key and base nonce of the setup, over the given additional data |
| HpkeRfc.OpenIsRfc | mls-rs-crypto-hpke/src/hpke.rs:135-155 | and opened with those of the receiver's setup |
| Hpke.ScheduleUsesAead | mls-rs-crypto-hpke/src/hpke.rs:241-317 | a context encrypts exactly when the suite has a cipher, with key and nonce of its sizes and counter zero |
| Hpke.DerivedIndependently | mls-rs-crypto-hpke/src/hpke.rs:271-300 | changing the KDF at the inputs of key, base nonce or exporter secret leaves the others as they were |
| Hpke.KeyBindsInputs | mls-rs-crypto-hpke/src/hpke.rs:234-307 | equal AEAD keys mean equal mode, shared secret, info and PSK, or a KDF collision between named inputs of the two runs |
| Hpke.NonceBindsInputs | mls-rs-crypto-hpke/src/hpke.rs:234-307 | so do equal base nonces |
| Hpke.ExporterBindsInputs | mls-rs-crypto-hpke/src/hpke.rs:234-307 | and equal exporter secrets |
| Hpke.ExportBinds | mls-rs-crypto-hpke/src/context.rs:71-77 | equal exports mean equal exporter secrets and contexts, or a KDF collision between their inputs |
| Hkdf.Expand | mls-rs-crypto-webcrypto/src/hkdf.rs:50-66 | the chunked loop returns the expected outcome, with and without overflow checks |
| Hkdf.OkmPrefix | mls-rs-crypto-webcrypto/src/hkdf.rs:50-66 | shorter outputs of the loop are prefixes of longer ones |
| Hkdf.CheckedIsRfcIff | mls-rs-crypto-webcrypto/src/hkdf.rs:56-63 | with overflow checks the output is that of section 2.3 of RFC 5869 if and only if at most 254 blocks are asked for or the RFC has none; beyond 254 blocks it panics |
| Hkdf.RfcBlocks | mls-rs-crypto-webcrypto/src/hkdf.rs:59-60 | up to 255 the loop's blocks are those of the RFC |
| Hkdf.UncheckedIsRfcIff | mls-rs-crypto-webcrypto/src/hkdf.rs:56-63 | without overflow checks every length is served, and the output is the RFC's if and only if at most 255 blocks are asked for |
| PrefixQuery.LikeIsPrefix | mls-rs-provider-sqlite/src/application.rs:84-119 | without `$`, the pattern matches exactly the keys that start with the prefix up to ASCII case |
| PrefixQuery.FoldIff | mls-rs-provider-sqlite/src/application.rs:84-99 | two characters are the same up to ASCII case exactly when they are equal or an ASCII letter and its other case |
| PrefixQuery.ExactUpToCaseIff | mls-rs-provider-sqlite/src/application.rs:117-119 | and with `$` it does not |
| PrefixQuery.ExactIff | mls-rs-provider-sqlite/src/application.rs:83-99 | the documented promise holds if and only if the prefix has neither `$` nor an ASCII letter |
| PrefixQuery.QueryAndDeletePartition | mls-rs-provider-sqlite/src/application.rs:84-114 | query results and what deletion leaves partition the store by prefix |
| PrefixQuery.ApplicationStorage.constructor | mls-rs-provider-sqlite/src/application.rs:24-28 | a new store is empty |
| PrefixQuery.ApplicationStorage.TransactInsert | mls-rs-provider-sqlite/src/application.rs:44-59 | all of the inserts, or none |
| PrefixQuery.ApplicationStorage.GetByPrefix | mls-rs-provider-sqlite/src/application.rs:84-99 | for a prefix without `$`, returns exactly the stored entries whose key starts with it up to ASCII case |
| PrefixQuery.ApplicationStorage.DeleteByPrefix | mls-rs-provider-sqlite/src/application.rs:102-114 | removes exactly those |
| PrefixQuery.RunIsLatest | mls-rs-provider-sqlite/src/application.rs:33-114 | after every run of inserts, transactions and deletions each key holds what the latest call that concerns it left; without `$` a deletion by prefix concerns the keys that start with it up to ASCII case |
| PrefixQuery.QueryAfterRun | mls-rs-provider-sqlite/src/application.rs:84-99 | so a query returns the matching keys whose latest call left a value, with that value |
| EpochStore.GroupStateStorage.constructor | mls-rs-provider-sqlite/src/group_state.rs:24-36 | new tables are empty |
| EpochStore.GroupStateStorage.UpdateGroupState | mls-rs-provider-sqlite/src/group_state.rs:120-182 | the transaction takes effect as a whole, or fails and changes nothing |
| EpochStore.WriteSucceedsIff | mls-rs-provider-sqlite/src/group_state.rs:134-162 | it succeeds exactly when it commits, all ids fit `i64`, and the inserted ids differ from each other and from the stored ones |
| EpochStore.SnapshotAfterRun | mls-rs-provider-sqlite/src/group_state.rs:75-90 | over every run the snapshot of a group is that of its last successful write, and absent if there was none |
| EpochStore.HistoryIsLatest | mls-rs-provider-sqlite/src/group_state.rs:141-162 | the history of a group holds, for every id, the latest data that the successful writes gave it |
| EpochStore.WriteKeepsWindowIff | mls-rs-provider-sqlite/src/group_state.rs:141-176 | a successful write keeps the ids above the largest id minus the retention if and only if no stored or inserted id lies between the last id's bound and that one |
| EpochStore.RunRefinesHistoryIff | mls-rs-provider-sqlite/src/group_state.rs:120-182 | over every run, failed writes included, the stored epochs of every group are at all times its history above the largest id minus the retention, with latest data, if and only if every successful write meets that condition |
| EpochStore.AscendingInWindow | mls-rs-provider-sqlite/src/group_state.rs:141-176 | runs whose inserted ids ascend meet it |
| EpochStore.RunFromEmpty | mls-rs-provider-sqlite/src/group_state.rs:164-176 | from empty tables, and never more than the retention limit |
| EpochStore.LookupAfterRun | mls-rs-provider-sqlite/src/group_state.rs:91-106 | from empty tables a lookup returns the latest data, by the writes alone, of an epoch less than the retention below every epoch ever inserted, and nothing for any other; ids beyond `i64` are an error |
| EpochStore.TopIsGreatest | mls-rs-provider-sqlite/src/group_state.rs:108-118 | the largest inserted id is stored and is the maximum, with its latest data |
| EpochStore.WriteFrame | mls-rs-provider-sqlite/src/group_state.rs:134-176 | other groups are untouched, and a failed write changes nothing |
| EpochStore.DescendingInsertsKeepMore | mls-rs-provider-sqlite/src/group_state.rs:141-176 | a write of two descending ids that keeps both at limit one, and does not meet the condition |
| EpochStore.ZeroRetentionEmptiesIff | mls-rs-provider-sqlite/src/group_state.rs:164-176 | with limit zero a successful write with inserts leaves no epoch if and only if no stored or inserted id exceeds the last inserted one |
| CertificateChain.NewValidator | mls-rs-crypto-rustcrypto/src/x509/validator.rs:50-67 | succeeds exactly when every root parses, is self-signed and has a name; the stored roots are the given certificates, each name with the last one that carries it |
| CertificateChain.ValidateChain | mls-rs-crypto-rustcrypto/src/x509/validator.rs:78-136 | the loop with early exit computes the result of the recursive walk, errors included |
| CertificateChain.AcceptedAtIff | mls-rs-crypto-rustcrypto/src/x509/validator.rs:78-178 | accepted exactly when non-empty, pin present, all parse, the leaf key extracts, and a signed path leads to a certificate issued and signed by a stored root; at a given time every certificate on it and the root have notBefore <= time <= notAfter, without one dates play no part |
| CertificateChain.RefusedIff | mls-rs-crypto-rustcrypto/src/x509/validator.rs:83-135 | exactly when a chain is refused as empty, for a missing pin, and for want of a root |
| CertificateChain.AnchorIsFirst | mls-rs-crypto-rustcrypto/src/x509/validator.rs:99-132 | that certificate is the first one issued by a stored root |
| CertificateChain.AcceptanceNeedsRoot | mls-rs-crypto-rustcrypto/src/x509/validator.rs:99-135 | without a stored root nothing is accepted, the last certificate's pairing with itself included |
| CertificateChain.AcceptedIsTrusted | mls-rs-crypto-rustcrypto/src/x509/validator.rs:50-136 | with roots from the constructor, acceptance is a signature path to a self-signed one of the given certificates, the last with the issuer's name |
| TreeMath.LeftOfNode | mls-rs/src/tree_kem/math.rs:87-89 | the bit pattern gives the left child |
| TreeMath.RightOfNode | mls-rs/src/tree_kem/math.rs:92-94 | the bit pattern gives the right child |
| TreeMath.ParentOfNode | mls-rs/src/tree_kem/math.rs:101-102 | the bit pattern gives the parent |
| TreeMath.RootIsTop | mls-rs/src/tree_kem/math.rs:82-84 | the root of 2^d leaves is the node at level d |
| TreeMath.ParentSiblingOfNode | mls-rs/src/tree_kem/math.rs:96-111 | parent and sibling of every node, and none for the root only |
| TreeMath.DirectCopath | mls-rs/src/tree_kem/math.rs:36-52 | for every node below the root, whatever the leaf count, the climbing loop ends and lists its ancestors with their siblings; outside the tree it lists none |
| TreeMath.ClimbEndsIffBelow | mls-rs/src/tree_kem/math.rs:46-49 | the loop of `parent_sibling` steps ends for exactly the nodes below the root |
| TreeMath.ClimbEndsIff | mls-rs/src/tree_kem/math.rs:46-49 | it ends from every leaf if and only if the number of leaves is a power of two |
| KeyRatchet.GetMessageKey | mls-rs/src/group/secret_tree.rs:411-448 | the catching-up loop computes the recursive specification, errors included |
| KeyRatchet.NextOnChain | mls-rs/src/group/secret_tree.rs:451-487 | the next key is the chain's key of the current generation, not given out before |
| KeyRatchet.GetOnChain | mls-rs/src/group/secret_tree.rs:411-448 | a key asked for by generation is the chain's key of it, not given out before and not again |
| KeyRatchet.ServedIff | mls-rs/src/group/secret_tree.rs:411-487 | a request is served if and only if it is admissible (no generation, or a kept one behind, or one at most 1024 ahead, within `u32`) and the derivations on the way succeed |
| KeyRatchet.RefusedBecause | mls-rs/src/group/secret_tree.rs:411-434 | exactly when a generation is refused as missing and as too far ahead |
| KeyPaths.NewRatchetLabel | mls-rs/src/group/secret_tree.rs:387-409 | a new ratchet's secret is expanded from the leaf's with the text `application` or `handshake` |
| SecretTree.SecretTree.constructor | mls-rs/src/group/secret_tree.rs:163-173 | a new tree of any number of leaves knows the root's secret only |
| SecretTree.SecretTree.Consume | mls-rs/src/group/secret_tree.rs:176-203 | a secret is taken out and replaced by its children's |
| SecretTree.SecretTree.TakeLeafNode | mls-rs/src/group/secret_tree.rs:206-225 | the loop from the root down takes out the leaf's node, or fails |
| SecretTree.SecretTree.MessageKey | mls-rs/src/group/secret_tree.rs:238-273 | a key is returned and the ratchet put back; on failure the ratchet stays out |
| SecretTreeRuns.RequestIsSafe | mls-rs/src/group/secret_tree.rs:176-273 | a returned key is the one that the tree defines for leaf, type and generation and was not returned before; the invariant survives success and failure |
| SecretTreeRuns.RunIsSafe | mls-rs/src/group/secret_tree.rs:176-273 | so from every state that satisfies the invariant |
| SecretTreeRuns.KeysAreRightAndUsedOnce | mls-rs/src/group/secret_tree.rs:163-273 | over every sequence of requests from a new tree all keys are right, and no leaf, type and generation occurs twice |
| KeyPaths.IdealKeyIsAlong | mls-rs/src/group/secret_tree.rs:176-487 | the tree's key and nonce for a leaf, type and generation are what two paths of labelled expansions derive from the epoch's secret, labels as text |
| KeyPaths.SecretPathInjective | mls-rs/src/group/secret_tree.rs:176-487 | different leaves, types or generations have different paths |
| KeyPaths.RunKeysDiffer | mls-rs/src/group/secret_tree.rs:163-273 | over every sequence of requests two given keys, or nonces, are equal only through a KDF collision between steps of their paths |
| SecretTreeAvailability.RequestCoverage | mls-rs/src/group/secret_tree.rs:176-273 | after a request its leaf can be served again if and only if the request succeeded; no other leaf is affected, unless a node above both has children that cannot be derived |
| SecretTreeAvailability.StaysUncovered | mls-rs/src/group/secret_tree.rs:206-225 | a leaf out of service stays so, and every later request for it is refused |
| SecretTreeAvailability.ReplayDisablesLeaf | mls-rs/src/group/secret_tree.rs:238-273 | once a generation has been served, asking for it again fails, and so does every later request for the leaf, of either type |
| SecretTreeAvailability.RequestServedIff | mls-rs/src/group/secret_tree.rs:238-273 | a request for a leaf in service, whose path can be derived, succeeds if and only if it is admissible after what was served before and its keys can be derived |
| SecretTreeAvailability.RequestUncovers | mls-rs/src/group/secret_tree.rs:176-225 | below a node whose children cannot be derived, a request for any leaf takes all of them out of service |
| SecretTreeAvailability.ServiceableIff | mls-rs/src/group/secret_tree.rs:163-273 | in every run a leaf is still in service if and only if every call for it was servable or, when a node on its path cannot be split, no call was for a leaf below the first such node; where derivation does not fail, the calls alone decide |
| SecretTreeAvailability.AnsweredIff | mls-rs/src/group/secret_tree.rs:163-273 | a call is answered with a key if and only if its leaf's path can be derived and it and the calls for its leaf before it were servable |

## Left out

- String codec: UTF-8 validation is not modelled; it is the byte-string codec with one more check.
- `Cow`, `Box` and reference codecs: they delegate and add nothing.
- Reader position after a decoding error: the source leaves it somewhere in the input; the model does not say where.
- `usize` overflow of computed sizes: sizes are natural numbers.
- Writer and reader of credentials, extension lists and HPKE contexts' exports: modelled on values, since the loops and appends they use are those of `CodecLoops`.
- Keys of maps that hold maps themselves: key equality is structural, so a map's key type holds no map.
- `SecretKeyRatchet` as an object: the ratchet is a value that methods return changed, because the tree owns and moves it; aliasing is not captured.
- Wrap-around of `u32` generations in builds without overflow checks: the model has the panic of a build with them.
- SecretTree.SecretTree.TakeLeafNode: leaf counts that are not powers of two are left out, because the climb then does not end from every leaf (`ClimbEndsIff`); the ratchet tree counts leaves as a power of two.
- SecretTree.SecretTree.MessageKey: the same.
- `leaf_lca_level`, `subtree` and the breadth-first iterator of the tree arithmetic: not needed for the secret tree.
- Errors of AEAD, KDF, Diffie-Hellman and X.509 calls are one error each, without the provider's detail.
- The trust in the AEAD, that only sealed ciphertexts open, is a hypothesis on runs, not a reduction.
- HpkeRfc.KeyScheduleIsRfc: lengths of 2^16 bytes or more, here and in the other comparisons with RFC 9180: the RFC has no two-byte form for them, and the source wraps (`LengthsWrap`).
- HPKE authenticated modes: the source does not offer them.
- HMAC and its empty-key path in the WebCrypto provider: a function that may fail, with outputs of the hash length.
- `validate_self_signed` and the setters of the certificate validator: one check on one certificate, for tests only.
- SQLite itself: tables are maps, a transaction is one step, and any engine failure is a transaction that does not commit; `delete_group`, key package and PSK tables are left out.
- LIKE on keys with an embedded NUL character.
- Group operations, TreeKEM, proposals, clients, bindings and the other crypto providers.
