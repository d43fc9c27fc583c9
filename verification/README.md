# Verification of the Symbol/NEM wallet core

A Dafny model of the parts of the repository that carry its guarantees, with proofs of those
guarantees for all inputs, all runs and all interleavings.

- **Deterministic CBOR** (`Cbor`, `CborTheory`, `CborSpelling`, `CborCodec`): the values, their wire
  form, the grammar the parser accepts under its limits, the accepted bytes spelled out in literal
  numbers, and the cursor parser and appending writer themselves, as classes.
- **Wallet Store v1** (`WalletTypes`, `StoreFormat`, `StoreFormatTheory`, `PayloadTheory`,
  `WireSizes`, `StoreLayout`): reading a Store or an encrypted payload out of a CBOR value, building
  it again, and the exact conditions under which the two are inverse, with extension fields at
  every level; and the literal layout of both, byte by byte.
- **Wallet operations** (`WalletCrypto`, `StoreOps`, `Pending`, `IndexTheory`, `SealTheory`,
  `MutationTheory`, `ProfileTheory`, `PendingTheory`, `Oversize`, `KeyTheory`, `KeyDerivation`,
  `DuplicateProfiles`, `SealedForm`, `StoreOutcomes`, `StoreRuns`, `StoreLiveness`,
  `StoreDecoding`, `Wallet`): each operation as a function from Store bytes to replacement bytes or
  an error; when each succeeds and what each error means; what every one of them writes, keeps and
  undoes, with tags, keys and sealed boxes in explicit bytes; and the loops and in-place updates
  that compute it. Ciphers, hashes and HMACs are uninterpreted functions; the only thing
  known of them is that decryption inverts encryption under the same key, nonce and associated
  data, and that neither changes the length.
- **React Native lifecycle** (`Lifecycle`, `LifecycleMachine`, `LifecycleState`, `LifecycleTheory`,
  `LifecycleRuns`, `LifecycleProgress`, `LifecycleTeardown`, `LifecycleAdmission`,
  `LifecycleCoordinator`): the coordinator's critical sections as functions of its state; any number
  of threads that interleave at every lock operation of the execution mutex, the shared delivery barrier and the state mutex;
  and the coordinator as a class whose methods are proved to act as the machine's steps do.
- **Scalars, signatures, Base32, mnemonic scan** (`Bits`, `Modular`, `Scalar`, `Signing`,
  `SignatureForm`, `Base32`, `Base32Numbers`, `MnemonicScan`, `MnemonicWords`): the byte loops
  of `crypto.rs` against arithmetic modulo the group order, key pair, signature and verification
  equation of RFC 8032 for the hash of each chain, the five-bit groups of RFC 4648 and splitting
  into words.
- **Release tooling** (`RuntimeGraph`, `RuntimeReading`, `Tar`, `TarTheory`, `TarPaths`,
  `TarReading`): the dependency closure of the bill of materials against reachability, the tar writer
  against the tar reader, and the archives and paths that the reader accepts.

`Wrappers`, `Bytes`, `Utf8` and `Sorting` hold what the others share. `dafny verify dfyconfig.toml`
checks everything.

Three promises do not hold of the code as they stand, and are proved with their exact conditions:

- A mutation of an accepted Store that carries extension fields need not leave an accepted Store:
  nothing tests the size of the payload before it is sealed. It does exactly when the new payload
  encodes to at most 1 MiB (`Oversize.AddedKeyIsReadable`); `Oversize.KeyTooMany` shows an import
  that succeeds and returns a Store that is no longer read. In runs from an empty Store the
  condition always holds (`StoreRuns.RunsAreSound`).
- A closed coordinator need not have ended every registration. It has on every run whose teardowns
  overlap at most `k` deep exactly when `k <= 1` (`LifecycleTeardown.ClosedMeansRetiredExactly`);
  `LifecycleTeardown.LateTeardown` is the run of two overlapping teardowns, the second of which
  closes the coordinator after a new registration.
- The comment at `crates/core/src/crypto.rs:336` says that the group order is below 2^252. The
  constant is 2^252 + 27742317777372353535851937790883648493 (`Scalar.OrderIsL`); the sum of two
  canonical values still stays below 2^256 (`Scalar.AddOnceIsModular`).

## Model

| member | source | states |
|---|---|---|
| CborTheory.DecodeExactly | crates/core/src/cbor.rs:98-115 | decoding yields `v` on exactly one input: the wire form of `v`, for `v` canonical, within depth, string and collection limits, and the input within its limit; so shortest arguments, ascending keys and no trailing bytes are enforced and nothing else is refused |
| CborTheory.DecodeThenEncode | crates/core/src/cbor.rs:98-218 | whatever bytes the parser accepts, encoding the value gives the same bytes |
| CborTheory.EncodeThenDecode | crates/core/src/cbor.rs:117-366 | the encoding of an encodable value decodes, to the value with all maps in key order, if and only if it is within the limits; the remaining-capacity guard never refuses an encoding |
| CborTheory.NormalizeIsCanonical | crates/core/src/cbor.rs:129-178 | with its maps sorted by key at every level, an encodable value is canonical |
| CborTheory.WireIsPrefixFree | crates/core/src/cbor.rs:129-218 | no encoding is a proper prefix of another one, and each belongs to one value |
| CborCodec.Parser.TakeBytes | crates/core/src/cbor.rs:228-234 | consumes exactly the next bytes or fails, and the cursor never passes the end |
| CborCodec.Parser.ReadValue | crates/core/src/cbor.rs:236-245 | the recursive cursor parser returns what the grammar says of the bytes from its offset on, leaves the offset after them, and restores the depth |
| CborCodec.Parser.ReadInner | crates/core/src/cbor.rs:247-319 | the same for each major type, one level deeper |
| CborCodec.Parser.ReadArgument | crates/core/src/cbor.rs:321-348 | only shortest arguments are accepted |
| CborCodec.Parser.ReadCollectionLength | crates/core/src/cbor.rs:354-366 | a declared length is refused when it is over the limit or more than the remaining bytes can hold |
| CborCodec.DecodeWithLimits | crates/core/src/cbor.rs:98-115 | the parser with its input limit and its test for trailing bytes is `Cbor.Decode` |
| CborCodec.Writer.WriteArgument | crates/core/src/cbor.rs:199-218 | appends the shortest head |
| CborCodec.Writer.WriteValue | crates/core/src/cbor.rs:129-178 | appends the canonical wire form of the value, and fails exactly when a map repeats a key or a simple value is reserved |
| CborCodec.Writer.WriteMap | crates/core/src/cbor.rs:150-163 | entries come out in key order, and a repeated key at any depth is an error |
| CborCodec.EncodeValue | crates/core/src/cbor.rs:117-127 | the appending writer computes `Cbor.Encode` |
| CborSpelling.HeadSpelled | crates/core/src/cbor.rs:199-218 | the head of every major type and argument in explicit bytes, five widths with big-endian digits |
| CborSpelling.StoreInput | crates/core/src/cbor.rs:98-366 | a Store input is accepted if and only if it has at most 16 MiB and spells, in literal bytes and apart from the wire form, a value at depth 32 with strings of at most 1 MiB of text or bytes, collections of at most 256, keys ascending, and no second spelling of booleans, null or reserved simple values |
| CborSpelling.PayloadInput | crates/core/src/cbor.rs:98-366 | the same for a payload of at most 1 MiB |
| CborSpelling.EncodedSpelling | crates/core/src/cbor.rs:117-197 | the encoder writes that spelling, maps in key order |
| CborSpelling.DepthExactly | crates/core/src/cbor.rs:236-245 | k nested arrays are accepted if and only if k is at most 32 |
| Utf8.Utf8Exactly | crates/core/src/cbor.rs:268-275 | text is accepted if and only if it is the RFC 3629 encoding of a sequence of scalar values |
| StoreFormatTheory.StoreCodec | crates/core/src/store.rs:889-947 | a Store is read from bytes if and only if it is well formed and they are its encoding; so re-encoding an accepted Store is the identity on bytes, with extension fields of Store, profile, KDF, cipher and index entries |
| StoreFormatTheory.StoreRead | crates/core/src/store.rs:889-1055 | everything in an accepted value is held by the Store read from it: the value is what the Store builds |
| StoreFormatTheory.StoreBuilt | crates/core/src/store.rs:1308-1452 | every well-formed Store builds a value that is accepted and read as that Store |
| StoreFormatTheory.ProfileRead | crates/core/src/store.rs:950-998 | the same for one profile |
| StoreFormatTheory.IndexEntryRead | crates/core/src/store.rs:1047-1055 | the same for one index entry |
| PayloadTheory.PayloadCodec | crates/core/src/store.rs:1058-1090 | a payload is read from a plaintext if and only if it is well formed, the plaintext is its encoding, and that has at most 1 MiB |
| PayloadTheory.PayloadEncoding | crates/core/src/store.rs:1358-1380 | a well-formed payload is always encoded, to its own canonical wire form |
| StoreDecoding.ReadStoreBytes | crates/core/src/store.rs:889-947 | `decode_store` on the cursor parser computes the format's reading, error by error |
| StoreDecoding.ReadProfiles | crates/core/src/store.rs:928-938 | the loop over profiles with its comparison to the previous id stops at the first bad one with the error of the whole list |
| StoreDecoding.ReadProfile | crates/core/src/store.rs:950-998 | one profile with its index loop |
| StoreDecoding.ReadIndex | crates/core/src/store.rs:977-987 | the index loop accepts exactly strictly ascending key ids |
| StoreDecoding.ReadPayloadBytes | crates/core/src/store.rs:1058-1090 | `parse_payload` with its loop over keys |
| StoreLayout.StoreInLayout | crates/core/src/store.rs:889-1055 | a Store is read from exactly the bytes of its literal field layout, within 16 MiB, with at most 128 profiles in ascending numeric order of id, at most 256 listed keys each, ciphertexts of at most 1 MiB, and extension fields after the known ones |
| StoreLayout.PayloadInLayout | crates/core/src/store.rs:1058-1139 | a payload is read from exactly the bytes of its literal layout, within 1 MiB and with at most 256 keys in ascending order of id |
| StoreLayout.ExtensionExactly | crates/core/src/store.rs:1758-1796 | extension fields are allowed if and only if their keys ascend beyond the known ones and no value in them, at any depth, is a negative, tag, simple value, boolean or null |
| StoreLayout.IndexExactly | crates/core/src/store.rs:977-987 | an index is accepted if and only if every value lists one key id and chain in its two known fields, ids ascending as numbers |
| StoreLayout.AadSpelled | crates/core/src/store.rs:1285-1304 | the associated data, byte by byte |
| SealedForm.VersionExactly | crates/core/src/store.rs:889-912 | UnsupportedStoreVersion is answered if and only if the input is a map with plain extension fields, the magic, and an unsigned version other than 1 |
| StoreOps.FreshId | crates/core/src/store.rs:1592-1621 | an id that is drawn is never one already taken |
| StoreOps.GeneratePrivateKey | crates/core/src/crypto.rs:237-250 | a generated key is always a valid one |
| StoreOutcomes.FreshIdExactly | crates/core/src/store.rs:1592-1621 | the id drawn is the first one not taken, and drawing fails if and only if all are taken |
| StoreOutcomes.GeneratedExactly | crates/core/src/crypto.rs:237-250 | the key generated is the first candidate that is not zero, and drawing fails if and only if all are |
| IndexTheory.MergeIsLookup | crates/core/src/store.rs:1454-1494 | on ascending inputs the one-pass merge gives each entry the extension fields found by looking its key id up |
| IndexTheory.IndexOfSortedKeys | crates/core/src/store.rs:1496-1507 | sorting the projected index is projecting the sorted keys |
| SealTheory.SealAuthenticates | crates/core/src/store.rs:1142-1165 | a sealed payload that belongs to the profile is read back in key order if and only if its encoding has at most 1 MiB |
| SealTheory.OpenedBelongs | crates/core/src/store.rs:1168-1201 | whatever authenticates is well formed, carries the profile's duplicate tag, has valid keys only, and is exactly what the index lists |
| SealTheory.RelistedKeepsUnknown | crates/core/src/store.rs:1213-1217 | a new index keeps the extension fields of every entry that survives |
| SealTheory.ReencryptedProfile | crates/core/src/store.rs:1204-1233 | re-encryption draws a new nonce, and a new salt exactly when the password changes, and keeps id, network, tag and extension fields; the profile stays acceptable if and only if the ciphertext has at most 1 MiB |
| SealedForm.SealedExactly | crates/core/src/store.rs:1204-1233 | what is sealed is the literal payload, under the Argon2id key of password and salt, the drawn nonce and the literal associated data |
| SealedForm.OpensExactly | crates/core/src/store.rs:1142-1201 | a profile opens to a payload if and only if the password is a non-empty text, its ciphertext decrypts under that key and these data to the literal bytes of the payload, the tag is the HMAC of its network and entropy, and its keys are those listed, none zero |
| SealedForm.OpenErrors | crates/core/src/store.rs:1142-1201 | and otherwise which of the three errors is answered |
| MutationTheory.Reencrypted | crates/core/src/store.rs:1204-1233 | the frame of every mutation: all other profiles and all extension fields of Store, envelope, KDF, cipher and surviving index entries are unchanged |
| MutationTheory.AddedKey | crates/core/src/store.rs:510-532 | deriving, importing or generating a key adds that one key in order, never a second one with the same chain and private key, and (within 1 MiB) the replacement Store decodes and authenticates to the new payload |
| MutationTheory.ChangedPassword | crates/core/src/store.rs:794-821 | after a password change, under a new salt and nonce, the profile authenticates under the new password to the payload it had, and the ciphertext has the size it had |
| MutationTheory.DeletedKey | crates/core/src/store.rs:832-860 | deleting a key removes that key only, never grows the ciphertext, and leaves a Store that decodes and authenticates |
| ProfileTheory.AddedProfile | crates/core/src/store.rs:309-355 | a new profile, under the salt and nonce drawn for it, takes its place among the sorted ids and authenticates to its entropy with no keys |
| ProfileTheory.DeletedProfile | crates/core/src/store.rs:871-886 | deletion removes one profile and keeps the bytes of all others |
| ProfileTheory.RestoreOnlyOnce | crates/core/src/store.rs:320-331 | restoring a mnemonic a second time on the same network is refused, whatever the password |
| DuplicateProfiles.TagExactly | crates/core/src/crypto.rs:512-535 | the tag is the HMAC, under the registry key, of the domain text, one network byte and the entropy |
| DuplicateProfiles.MessageInjective | crates/core/src/crypto.rs:520-523 | each network and entropy has its own message |
| DuplicateProfiles.RestoreExactly | crates/core/src/store.rs:309-355 | a restore answers DuplicateProfile if and only if some profile carries that HMAC of the network and entropy, and each other refusal exactly on its cause |
| DuplicateProfiles.RestoreSucceeds | crates/core/src/store.rs:309-355 | and otherwise succeeds if and only if there are fewer than 128 profiles and the Store has room |
| DuplicateProfiles.RestoredOpens | crates/core/src/store.rs:309-355 | the one new profile has the first free id and the network asked for, and opens under the password to the entropy of the mnemonic |
| DuplicateProfiles.OtherNetwork | crates/core/src/store.rs:320-331 | the same mnemonic is not refused on the other network, unless it was there or the HMAC of the two messages is the same |
| StoreLiveness.HeldExactly | crates/core/src/store.rs:320-331 | in a reached Store, with an HMAC that does not collide on the mnemonics at hand, a profile is a duplicate if and only if one of that network has that entropy |
| ProfileTheory.DeleteUndoesRestore | crates/core/src/store.rs:309-355 | restore then delete gives back exactly the input Store, wherever the new id sorts |
| ProfileTheory.DeleteUndoesAdd | crates/core/src/store.rs:871-886 | the same for any way a profile was added |
| PendingTheory.PendingCodec | crates/core/src/store.rs:1658-1718 | the fixed envelope is read from exactly the bytes it is written to |
| PendingTheory.FinalizePrepared | crates/core/src/store.rs:190-297 | finalizing what was prepared for this Store adds the prepared profile, unless its mnemonic is already there on that network |
| PendingTheory.FinalizedOpens | crates/core/src/store.rs:224-297 | only an envelope bound to this Store, under the right password, with a free id and a new tag is finalized |
| PendingTheory.FinalizeOnlyOnce | crates/core/src/store.rs:224-297 | an envelope that was finalized is refused by the Store that finalizing gave, even if the two Stores had the same hash |
| PendingTheory.DeleteUndoesFinalize | crates/core/src/store.rs:224-297 | finalize then delete gives back exactly the input Store |
| DuplicateProfiles.FinalizeDuplicate | crates/core/src/store.rs:224-297 | finalizing answers DuplicateProfile only if some profile carries the HMAC of the envelope's network and entropy |
| DuplicateProfiles.FinalizeRefusals | crates/core/src/store.rs:224-262 | what is refused before the envelope opens, in the source's order |
| DuplicateProfiles.FinalizeExactly | crates/core/src/store.rs:262-297 | an envelope that opens is refused if and only if its mnemonic is there on its network, or its id is |
| DuplicateProfiles.FinalizedIsNew | crates/core/src/store.rs:224-297 | the one new profile has the id and network of the envelope and opens to the entropy sealed in it |
| SealedForm.PendingExactly | crates/core/src/store.rs:1658-1742 | the envelope is read from exactly 134 bytes at literal offsets |
| SealedForm.PreparedExactly | crates/core/src/store.rs:190-222 | what is prepared is the drawn entropy, sealed under password, salt and nonce with the first 58 bytes of the envelope, which hold the hash of the Store, the first free id and the network |
| Oversize.AddedKeyIsReadable | crates/core/src/store.rs:1204-1233 | adding a key leaves a Store that decodes if and only if the new payload encodes to at most 1 MiB |
| Oversize.ReadableIsSmall | crates/core/src/store.rs:1022-1044 | no Store that is read back holds a ciphertext over 1 MiB |
| Oversize.KeyTooMany | crates/core/src/store.rs:1358-1380 | with every cipher, importing a key into an accepted Store with a full payload succeeds and returns a Store that is refused |
| KeyTheory.AadDetermines | crates/core/src/store.rs:1285-1304 | the authenticated bytes of two accepted profiles agree if and only if registry key, profile id, network, duplicate tag and wire index all agree |
| KeyTheory.ImportThenExport | crates/core/src/store.rs:444-473 | an imported key is exported unchanged under its new id |
| KeyTheory.ImportOnlyOnce | crates/core/src/store.rs:1565-1581 | importing a key a second time on the same chain is refused |
| KeyTheory.AddedKeyIsExported | crates/core/src/store.rs:444-473 | the same for derived and generated keys |
| KeyTheory.DeleteUndoesAddKey | crates/core/src/store.rs:832-860 | deleting the key just added gives the Store back but for nonce, ciphertext and tag of its profile, which opens to the payload it had |
| KeyDerivation.DerivationExactly | crates/core/src/crypto.rs:146-208 | derivation gives the key of the sixth node of an explicit chain of HMACs (root text, five hardened child indexes, coin type of chain and network), as it is for Symbol and from its last byte to its first for NEM; it fails if and only if the index is 2^31 or more or that key is zero |
| KeyDerivation.DerivedIsExported | crates/core/src/store.rs:489-532 | a derived key is exported as that key of the profile's entropy, network and index |
| StoreOutcomes.AddKeyRefusals | crates/core/src/store.rs:510-532 | adding a key answers DuplicateSoftwareKey and RandomSourceFailure exactly on their causes |
| StoreOutcomes.AddKeySucceeds | crates/core/src/store.rs:510-532 | and otherwise succeeds if and only if there are fewer than 256 keys and the Store encodes |
| WireSizes.KeySize | crates/core/src/store.rs:1382-1407 | a key without extension fields takes at most 66 bytes |
| WireSizes.PayloadSize | crates/core/src/store.rs:1358-1380 | and a payload at most 40 more than its keys: 16,936 bytes |
| WireSizes.StoreSize | crates/core/src/store.rs:1308-1336 | a Store of such profiles takes at most 2,873,648 bytes |
| StoreRuns.EmptyStoreInvariant | crates/core/src/store.rs:167-174 | a new Store is always encoded, decodes to no profiles under the drawn registry key, and starts the invariant |
| StoreRuns.StepKeepsInvariant | crates/core/src/store.rs:224-886 | every operation, failing or not, keeps the invariant of Store and secrets |
| StoreRuns.RunKeepsInvariant | crates/core/src/store.rs:224-886 | so does every run |
| StoreRuns.RunsAreSound | crates/core/src/store.rs:167-886 | every Store reached from an empty one decodes, has ascending profile and key ids, authenticates each profile under its current password to the payload last written, lists exactly its keys, never holds one key twice in a profile nor one mnemonic twice on a network, and stays under 2.9 MB |
| StoreLiveness.RestoreLive | crates/core/src/store.rs:309-355 | in every reached Store a restore succeeds if and only if password and mnemonic are good, no profile carries the HMAC, id, salt and nonce are drawn, and there are fewer than 128 profiles |
| StoreLiveness.FinalizeLive | crates/core/src/store.rs:224-297 | a finalize if and only if the hash is that of the Store, the envelope opens, mnemonic and id are new, salt and nonce are drawn, and there are fewer than 128 profiles |
| StoreLiveness.PrepareLive | crates/core/src/store.rs:190-222 | a prepare if and only if the password is good and all is drawn |
| StoreLiveness.DeriveLive | crates/core/src/store.rs:489-532 | a derivation if and only if the index is below 2^31, the key of the path is new and not zero, id and nonce are drawn, and there are fewer than 256 keys |
| StoreLiveness.ImportLive | crates/core/src/store.rs:544-582 | an import if and only if the key has 32 bytes, is new and not zero, and likewise |
| StoreLiveness.GenerateLive | crates/core/src/store.rs:609-652 | a generation likewise, for the first candidate that is not zero |
| StoreLiveness.GeneratedIsExported | crates/core/src/store.rs:609-652 | a generated key is exported as that candidate |
| StoreLiveness.ChangePasswordLive | crates/core/src/store.rs:794-821 | a password change if and only if the new password is good and salt and nonce are drawn |
| StoreLiveness.DeleteKeyLive | crates/core/src/store.rs:832-860 | a key is deleted if and only if it is listed and a nonce is drawn |
| StoreLiveness.DeleteProfileLive | crates/core/src/store.rs:871-886 | a profile is deleted if and only if the password authenticates |
| StoreLiveness.ExportLive | crates/core/src/store.rs:444-473 | a key is exported if and only if the profile has one of that id |
| StoreLiveness.OnlyAuthenticated | crates/core/src/store.rs:444-886 | no operation on a profile gets past a failed authentication, nor changes its error |
| Wallet.MergeIndexValues | crates/core/src/store.rs:1454-1494 | the peekable cursor computes the merge |
| Wallet.SecretBytesEqual | crates/core/src/store.rs:1584-1590 | the accumulated XOR is zero exactly on equal bytes |
| Wallet.IsDuplicate | crates/core/src/store.rs:1565-1581 | the full scan finds a key of that chain and value if there is one |
| Wallet.IsConsistent | crates/core/src/store.rs:1168-1201 | the zipped scan accepts exactly the payloads whose tag, index and keys match the profile |
| Wallet.NewId | crates/core/src/store.rs:1592-1621 | the retry loop draws the first free id |
| Wallet.NewPrivateKey | crates/core/src/crypto.rs:237-250 | the retry loop draws the first valid key |
| Wallet.HardenedChildData | crates/core/src/crypto.rs:179-183 | the 37-byte buffer filled in place is 0, the node's key and the hardened index |
| Wallet.PrivateKeyAt | crates/core/src/crypto.rs:146-208 | the loop over the path computes the derivation |
| Wallet.Retain | crates/core/src/store.rs:846-850 | the loop keeps every key with another id, in order |
| Wallet.ProfileEnvelope.Seal | crates/core/src/store.rs:1221-1233 | the in-place update of the cipher leaves the profile the specification seals, or its error |
| Wallet.ProfileEnvelope.Reencrypt | crates/core/src/store.rs:1204-1233 | the same for index, salt and cipher |
| Wallet.WalletStore.Position | crates/core/src/store.rs:1546-1563 | finds the first profile with the id |
| Wallet.WalletStore.Authenticate | crates/core/src/store.rs:1142-1165 | on the objects, as the specification on values |
| Wallet.WalletStore.HasTag | crates/core/src/store.rs:325-331 | the full scan finds a profile with the tag if there is one |
| Wallet.WalletStore.Reencrypt | crates/core/src/store.rs:1204-1233 | changes one profile object and no other |
| Wallet.WalletStore.Encoded | crates/core/src/store.rs:1308-1336 | the bytes of the Store in memory |
| Wallet.IsValidKey | crates/core/src/crypto.rs:212-231 | the full scan accepts exactly the 32-byte keys that are not all zero |
| Wallet.ReadPending | crates/core/src/store.rs:1658-1703 | the cursor over the fixed envelope reads what the envelope says |
| Wallet.RestoreProfile | crates/core/src/store.rs:309-355 | decoding, changing the objects and encoding returns what the operation is specified to return |
| Wallet.FinalizeGeneratedProfile | crates/core/src/store.rs:224-297 | likewise |
| Wallet.DeleteProfile | crates/core/src/store.rs:871-886 | likewise |
| Wallet.DeriveSoftwareKey | crates/core/src/store.rs:489-532 | likewise |
| Wallet.ImportSoftwareKey | crates/core/src/store.rs:544-582 | likewise |
| Wallet.GenerateSoftwareKey | crates/core/src/store.rs:609-652 | likewise |
| Wallet.ChangeProfilePassword | crates/core/src/store.rs:794-821 | likewise |
| Wallet.DeleteSoftwareKey | crates/core/src/store.rs:832-860 | likewise |
| LifecycleState.RegisterKeeps | packages/wallet-core/cpp/RnLifecycleCoordinator.cpp:40-73 | a registration retires every live one of the same registry and context, and is itself unretired |
| LifecycleState.BeginKeeps | packages/wallet-core/cpp/RnLifecycleCoordinator.cpp:75-118 | an admitted request is live, agrees with its registration in every field, and counts one in flight; a refused one counts none |
| LifecycleAdmission.BeginExactly | packages/wallet-core/cpp/RnLifecycleCoordinator.cpp:75-118 | a request is admitted if and only if the process is ready, the registration unretired, complete and of the current generation, its runtime unbound or equal and active, and the counter not exhausted; the whole new state and request are given |
| LifecycleAdmission.LiveExactly | packages/wallet-core/cpp/RnLifecycleCoordinator.cpp:120-141 | an outstanding request is live if and only if the process is ready, its registration unretired, and its generation the current one |
| LifecycleAdmission.RegisterExactly | packages/wallet-core/cpp/RnLifecycleCoordinator.cpp:40-73 | a module is registered if and only if the process is neither draining nor unavailable and the counter not exhausted; the whole new state, entry by entry |
| LifecycleAdmission.RegisterThenBegin | packages/wallet-core/cpp/RnLifecycleCoordinator.cpp:40-118 | a registration with no runtime yet, or with this one, admits a request of this runtime, is bound to it, and admits no other from then on |
| LifecycleAdmission.ProviderExactly | packages/wallet-core/cpp/RnLifecycleCoordinator.cpp:170-188 | exactly the listed live registrations of the provider are retired |
| LifecycleAdmission.ContextExactly | packages/wallet-core/cpp/RnLifecycleCoordinator.cpp:190-208 | exactly those of the context |
| LifecycleAdmission.DrainExactly | packages/wallet-core/cpp/RnLifecycleCoordinator.cpp:210-227 | a teardown drains if and only if the process is neither closed nor unavailable, and retires exactly what was listed and alive |
| LifecycleState.InvalidateSelectedKeeps | packages/wallet-core/cpp/RnLifecycleCoordinator.cpp:170-208 | after the scan every live registration of the provider or context is retired |
| LifecycleState.InvalidateKeeps | packages/wallet-core/cpp/RnLifecycleCoordinator.cpp:151-168 | the registration is retired and unlisted, the others stay listed |
| LifecycleState.DrainKeeps | packages/wallet-core/cpp/RnLifecycleCoordinator.cpp:210-227 | a teardown that drains retires every live registration |
| LifecycleTheory.NextKeeps | packages/wallet-core/cpp/RnLifecycleCoordinator.cpp:40-232 | every step of every thread keeps the invariant of locks, registrations, tickets and counts |
| LifecycleTheory.RunInvariant | packages/wallet-core/cpp/RnLifecycleCoordinator.cpp:40-232 | it holds in every state of every run |
| LifecycleRuns.NoStaleDelivery | packages/wallet-core/cpp/NativeSymbolNemWalletCore.cpp:111-116 | whenever a thread is inside a delivery callback its request is live |
| LifecycleRuns.RetiredNeverDelivers | packages/wallet-core/cpp/RnLifecycleCoordinator.cpp:120-141 | retirement is permanent, and no callback runs again for a retired registration |
| LifecycleRuns.NoDeliveryAfterReturn | packages/wallet-core/cpp/RnLifecycleCoordinator.cpp:151-232 | from the moment an invalidation or a draining teardown gives back the barrier, no callback runs for any registration it was asked to end |
| LifecycleRuns.NoDeliveryAfterReplacement | packages/wallet-core/cpp/RnLifecycleCoordinator.cpp:40-73 | nor for one replaced by a new registration |
| LifecycleRuns.RegistrationHistory | packages/wallet-core/cpp/RnLifecycleCoordinator.cpp:89-117 | a registration keeps identity and first runtime, every outstanding request carries it, and no two unretired registrations share registry and context |
| LifecycleRuns.InFlightIsExact | packages/wallet-core/cpp/RnLifecycleCoordinator.cpp:106-149 | `inFlight_` is the number of outstanding tickets, at most one, and the thread flag is set exactly on its owner |
| LifecycleRuns.TeardownDrains | packages/wallet-core/cpp/RnLifecycleCoordinator.cpp:210-232 | when a teardown that drained returns, and ever after, no request admitted before it drained is outstanding |
| LifecycleAdmission.EndedGenerationStaysEnded | packages/wallet-core/cpp/RnLifecycleCoordinator.cpp:23-118 | a registration whose generation has ended is never admitted nor delivered to again, even after the coordinator has become ready again |
| LifecycleAdmission.AdmissionStep | packages/wallet-core/cpp/NativeSymbolNemWalletCore.cpp:83-109 | in every state of every run the admission step admits if and only if the coordinator can |
| LifecycleAdmission.DeliveryStep | packages/wallet-core/cpp/NativeSymbolNemWalletCore.cpp:111-116 | and the delivery step enters the callback if and only if the request may still be delivered |
| LifecycleAdmission.RegisterThenInvoke | packages/wallet-core/cpp/NativeSymbolNemWalletCore.cpp:83-122 | from every reachable state at rest a module registers, with or without a runtime, a call on it is admitted and bound, its callback runs, and it returns with nothing in flight |
| LifecycleProgress.SomeoneProceeds | packages/wallet-core/cpp/NativeSymbolNemWalletCore.cpp:83-122 | the lock order execution, barrier, state leaves some thread free to move whenever one is busy |
| LifecycleProgress.NeverStuck | packages/wallet-core/cpp/RnLifecycleCoordinator.cpp:210-232 | no reachable state with unfinished threads is stuck |
| LifecycleProgress.Settles | packages/wallet-core/cpp/NativeSymbolNemWalletCore.cpp:83-122 | without new calls every schedule ends within a computed number of steps, with every operation and request finished and no lock held |
| LifecycleTeardown.ClosedMeansRetiredExactly | packages/wallet-core/cpp/RnLifecycleCoordinator.cpp:210-232 | closed implies all registrations retired, on all runs whose teardowns overlap at most `k` deep, if and only if `k <= 1` |
| LifecycleTeardown.LateTeardown | packages/wallet-core/cpp/RnLifecycleCoordinator.cpp:229-231 | the run in which a late second teardown closes a coordinator with a live registration |
| LifecycleTeardown.RunsAlone | packages/wallet-core/cpp/RnLifecycleCoordinator.cpp:40-232 | an operation that meets no other thread acts exactly as its critical section |
| LifecycleCoordinator.RnLifecycleCoordinator.EnsureReadyLocked | packages/wallet-core/cpp/RnLifecycleCoordinator.cpp:23-33 | a new generation exactly from uninitialized or closed, failure when draining or unavailable |
| LifecycleCoordinator.RnLifecycleCoordinator.RegisterModule | packages/wallet-core/cpp/RnLifecycleCoordinator.cpp:40-73 | the method acts on fields and registration objects as the machine's step on the abstract state |
| LifecycleCoordinator.RnLifecycleCoordinator.Begin | packages/wallet-core/cpp/RnLifecycleCoordinator.cpp:75-118 | likewise, with the runtime bound once |
| LifecycleCoordinator.RnLifecycleCoordinator.IsLive | packages/wallet-core/cpp/RnLifecycleCoordinator.cpp:120-141 | likewise |
| LifecycleCoordinator.RnLifecycleCoordinator.Finish | packages/wallet-core/cpp/RnLifecycleCoordinator.cpp:143-149 | likewise |
| LifecycleCoordinator.RnLifecycleCoordinator.Invalidate | packages/wallet-core/cpp/RnLifecycleCoordinator.cpp:151-168 | likewise |
| LifecycleCoordinator.RnLifecycleCoordinator.InvalidateProvider | packages/wallet-core/cpp/RnLifecycleCoordinator.cpp:170-188 | likewise |
| LifecycleCoordinator.RnLifecycleCoordinator.InvalidateContext | packages/wallet-core/cpp/RnLifecycleCoordinator.cpp:190-208 | likewise |
| LifecycleCoordinator.RnLifecycleCoordinator.DrainLocked | packages/wallet-core/cpp/RnLifecycleCoordinator.cpp:210-227 | likewise |
| LifecycleCoordinator.RnLifecycleCoordinator.CloseLocked | packages/wallet-core/cpp/RnLifecycleCoordinator.cpp:229-231 | likewise |
| Scalar.OrderIsL | crates/core/src/crypto.rs:318-322 | the little-endian constant is l = 2^252 + 27742317777372353535851937790883648493 |
| Scalar.AddBytes | crates/core/src/crypto.rs:327-334 | the carry loop adds: sum and last carry are the exact sum |
| Scalar.SubtractOrder | crates/core/src/crypto.rs:337-344 | the borrow loop subtracts l, and the last borrow says whether it was too much |
| Scalar.SelectBytes | crates/core/src/crypto.rs:347-350 | the masked loop selects one of two arrays |
| Scalar.AddOnceIsModular | crates/core/src/crypto.rs:326-355 | for canonical inputs the result is the sum modulo l and the dropped carry is 0 |
| Scalar.ScalarAddModOrder | crates/core/src/crypto.rs:326-355 | the three loops compute that for every pair of canonical inputs, and one conditional subtraction for all others |
| Scalar.LowBitsAreBytes | crates/core/src/crypto.rs:363-364 | the 256 extracted bits are the number the bytes hold |
| Scalar.ScalarMulModOrder | crates/core/src/crypto.rs:357-376 | a·b modulo l for every canonical a and every 256-bit b, with result and addend canonical at each step |
| Signing.ClampedScalar | crates/core/src/crypto.rs:396-413 | the clamped bytes are a multiple of 8 between 2^254 and 2^255 |
| Signing.PrivateScalar | crates/core/src/crypto.rs:396-413 | hash, clamp in place, reduce |
| Signing.KeyMaterial | crates/core/src/crypto.rs:378-394 | public key and nonce prefix of one digest |
| Signing.Sign | crates/core/src/crypto.rs:270-316 | the byte arithmetic gives R and S of the signature, with S below l |
| Signing.SignatureVerifies | crates/core/src/crypto.rs:270-316 | for both chains every signature satisfies S < l and [S]B = R + [k]A, over any group of order l that the base point generates |
| SignatureForm.ClampExactly | crates/core/src/crypto.rs:396-413 | the masked bytes hold 2^254 plus the number modulo 2^254 without its low three bits |
| SignatureForm.SymbolForm | crates/core/src/crypto.rs:263-316 | the Symbol key pair and signature written out with SHA-512 and the private key as seed: R from the hash of the digest's second half and the message, S from nonce, challenge and secret |
| SignatureForm.NemForm | crates/core/src/crypto.rs:263-316 | the same with Keccak-512 and the private key from its last byte to its first |
| SignatureForm.OneSignature | crates/core/src/crypto.rs:270-316 | there is one signature of that form |
| SignatureForm.SymbolNonces | crates/core/src/crypto.rs:273-280 | two messages share R if and only if the hashes of the digest's second half and the message agree modulo l |
| SignatureForm.NemNonces | crates/core/src/crypto.rs:273-280 | the same for NEM |
| Base32.Base32Encode | crates/core/src/crypto.rs:550-573 | the shifting loop gives the five-bit groups of section 6 of RFC 4648 without padding, its buffer never holding more than 12 bits |
| Base32.Base32RoundTrip | crates/core/src/crypto.rs:550-573 | every byte string is recovered by decoding, and the length is that of the groups |
| Base32Numbers.EncodedNumber | crates/core/src/crypto.rs:550-573 | the text spells, in base 32 with the digits A to Z and 2 to 7, the number of the bytes times 2 to the fewer than five bits that fill it up |
| MnemonicScan.Scan | crates/core/src/crypto.rs:91-121 | the scan accepts if and only if the stream splits into at most 24 words of at most 8 lowercase letters, returns them joined by single spaces, and never writes past 215 bytes |
| MnemonicScan.CanonicalPhrase | crates/core/src/crypto.rs:91-121 | the canonical phrase splits into the same words again |
| MnemonicWords.WordsAreRuns | crates/core/src/crypto.rs:100-117 | the words are exactly the maximal runs of characters outside the 25 white space code points, in order |
| MnemonicWords.AcceptableExactly | crates/core/src/crypto.rs:104-112 | acceptable is at most 24 words of at most 8 letters a to z |
| MnemonicWords.JoinedFirst | crates/core/src/crypto.rs:112-116 | one space, 0x20, stands between each two words and nowhere else |
| RuntimeGraph.PushDependencies | scripts/c-abi-sbom.mjs:183-192 | pushes exactly the normal dependencies and records exactly their edges, or names what one of them lacks |
| RuntimeGraph.CollectTarget | scripts/c-abi-sbom.mjs:158-200 | for any finite graph, cycles included, the worklist ends; it succeeds if and only if everything reachable is known and consistent, with exactly the reachable identities and the normal edges that leave them, and otherwise names something reachable that is wrong |
| RuntimeGraph.CollectRuntimeGraph | scripts/c-abi-sbom.mjs:154-206 | over all targets: success if and only if all are sound together, each package listed for exactly the targets that reach it |
| RuntimeReading.SoundExactly | scripts/c-abi-sbom.mjs:154-206 | over the metadata as listed, the last entry of an id counting: collection succeeds if and only if each target has one package of the root's name with a node, all it uses through dependencies of a null kind is resolved, and one label means one name and version |
| RuntimeReading.OutcomeExactly | scripts/c-abi-sbom.mjs:154-206 | and then holds exactly the labels in use, the edges between them, and for each label a package in use that has it, with the targets that use it |
| Tar.WriteTarHeader | scripts/c-abi-release.mjs:173-198 | the header filled in place is the field layout with its checksum, or the error of the first field that does not fit |
| Tar.CreateTar | scripts/c-abi-release.mjs:221-233 | the chunks in name order are the archive |
| Tar.ParseTar | scripts/c-abi-release.mjs:241-278 | the cursor loop with its count of zero blocks is the recursive reading |
| TarTheory.FieldReads | scripts/c-abi-release.mjs:167-171 | a number written to an octal field is read back |
| TarTheory.HeaderReads | scripts/c-abi-release.mjs:173-272 | the reader finds the writer's checksum, path and size |
| TarTheory.TarRoundTrip | scripts/c-abi-release.mjs:221-278 | an archive is made exactly of entries with safe paths of at most 100 bytes and sizes below 8^11, and with printable names reading it gives exactly those entries |
| TarPaths.SafeExactly | scripts/c-abi-release.mjs:74-86 | a path is safe if and only if it is not empty, holds no backslash or line break, does not start with a slash, and no maximal slash-free piece is empty, `.` or `..` |
| TarPaths.SafeStaysBelow | scripts/c-abi-release.mjs:74-86 | followed from any directory a safe path never goes above it and ends below it, by its parts |
| TarPaths.ReadStaysBelow | scripts/c-abi-release.mjs:241-278 | every name the reader returns is such a path, and no two lead to one place |
| TarPaths.WrittenStaysBelow | scripts/c-abi-release.mjs:173-198 | a header is refused as unsafe if and only if its path is no such path |
| TarReading.HeaderExactly | scripts/c-abi-release.mjs:235-274 | a header is read if and only if its name and prefix up to their NUL make a safe path, its type is regular, its size field holds the size, and its checksum field the sum with eight spaces |
| TarReading.ReadExactly | scripts/c-abi-release.mjs:241-278 | an archive is read to entries if and only if it is a sequence of such headers with distinct names, each with its data and padding and at most one zero block before it, followed by two zero blocks and nothing else |
| TarReading.HeaderBytes | scripts/c-abi-release.mjs:167-198 | every byte of a header written: path, literal fields, octal digits, zeros |
| TarReading.ArchiveLayout | scripts/c-abi-release.mjs:221-233 | the archive written has the entries in name order, each padded with zeros to the next block only |

## Left out

- Argon2id, AES-GCM, HMAC, SHA, Keccak, RIPEMD, BIP39 word list, checksum and seed, and curve arithmetic: library code; uninterpreted functions here.
- StoreRuns.RunsAreSound: authenticated operations are made with the profile's current password, because that another one is rejected is an assumption about the cipher and not decided by this code.
- Signing.SignatureVerifies: the base point is only known to generate a group of order l and its multiples to survive compression; other points, and the cofactor, are not modelled.
- Randomness: what the random source returns is a parameter of each operation, finite, with a missing draw as its failure; so the retry loops end by running out of draws.
- Decoding warnings: always empty in the source, so not modelled.
- Failures of the ciphers themselves (length limits of GCM, key lengths): they cannot be reached with the lengths used.
- Lengths are bounded by 2^64 where the source casts them; memory exhaustion is not modelled.
- Zeroizing, `Drop`, redaction and constant timing.
- Mnemonic and public-account export, listing and the checks of export and signing requests: one-branch readings of what is proved here.
- UTF-8 decoding and NFKD before the mnemonic scan, and the BIP39 parse after it.
- Lifecycle: a forked process (`getpid`), a null registration state (the same refusal as a null runtime), the integration-test gate, Kotlin and iOS hooks; native calls that themselves start lifecycle operations.
- LifecycleCoordinator.RnLifecycleCoordinator.Begin: the thread-local flag is a parameter; the machine sets and clears it.
- Weak pointers are numbers of registration states in order of allocation, with the set of those still owned.
- RuntimeGraph.CollectRuntimeGraph: the final sorting of its lists, the reading of metadata files, and the mapping of a package to its source path.
- TarTheory.TarRoundTrip: gzip is taken as an inverse pair, and paths as their ASCII bytes.
- The C ABI, Node, WebAssembly and JSI bindings, `invoke`'s per-operation bodies, and the remaining scripts.
