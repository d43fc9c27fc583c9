// The wallet's entities and error codes.
module WalletTypes {
  import opened Bytes
  import opened Cbor

  datatype Network = Testnet | Mainnet {
    function Wire(): u64 {
      if Testnet? then 0 else 1
    }
  }

  datatype Chain = Nem | Symbol {
    function Wire(): u64 {
      if Nem? then 0 else 1
    }
  }

  datatype ErrorCode =
    | InvalidArgument
    | InvalidStore
    | UnsupportedStoreVersion
    | UnsupportedProfileSchemaVersion
    | ProfileNotFound
    | SoftwareKeyNotFound
    | AuthenticationFailed
    | InvalidMnemonic
    | InvalidPrivateKey
    | DuplicateProfile
    | DuplicateSoftwareKey
    | InvalidAccountIndex
    | RandomSourceFailure
    | SerializationFailure
    | PendingProfileInvalid

  const MAX_ACCOUNT_INDEX: u64 := 2_147_483_647

  type AccountIndex = n: u64 | n <= MAX_ACCOUNT_INDEX

  datatype Origin = Derived(accountIndex: AccountIndex) | Imported | Generated

  datatype Kdf = Kdf(salt: Bytes16, unknown: seq<Entry>)

  datatype Cipher = Cipher(nonce: Bytes12, ciphertext: seq<byte>, tag: Bytes16, unknown: seq<Entry>)

  datatype IndexEntry = IndexEntry(keyId: Bytes16, chain: Chain)

  // `index` is the listing read from `aadIndex`, the wire values that the AAD covers.
  datatype Profile = Profile(
    profileId: Bytes16,
    network: Network,
    duplicateTag: Bytes32,
    kdf: Kdf,
    cipher: Cipher,
    index: seq<IndexEntry>,
    aadIndex: seq<Value>,
    unknown: seq<Entry>)

  datatype Store = Store(registryKey: Bytes32, profiles: seq<Profile>, unknown: seq<Entry>)

  datatype KeyRecord = KeyRecord(
    keyId: Bytes16,
    chain: Chain,
    privateKey: Bytes32,
    origin: Origin,
    unknown: seq<Entry>,
    originUnknown: seq<Entry>)

  datatype Payload = Payload(entropy: Bytes32, keys: seq<KeyRecord>, unknown: seq<Entry>)
}
