// Profiles prepared in one call and finalized in another, through a fixed binary envelope
// that is bound to the Store it was prepared for.
module Pending {
  import opened Wrappers
  import opened Bytes
  import opened WalletTypes
  import opened WalletCrypto
  import opened StoreFormat
  import opened StoreOps

  // "SNWCPND1"
  const PENDING_MAGIC: seq<byte> := [0x53, 0x4e, 0x57, 0x43, 0x50, 0x4e, 0x44, 0x31]
  const PENDING_VERSION: byte := 1
  const PENDING_SIZE := 8 + 1 + 32 + 16 + 1 + 16 + 12 + 32 + 16

  datatype Envelope = Envelope(
    targetStoreHash: Bytes32,
    profileId: Bytes16,
    network: Network,
    salt: Bytes16,
    nonce: Bytes12,
    ciphertext: seq<byte>,
    tag: Bytes16)

  function PendingAad(p: Envelope): seq<byte> {
    PENDING_MAGIC + [PENDING_VERSION] + p.targetStoreHash + p.profileId + [p.network.Wire()]
  }

  function EncodePending(p: Envelope): seq<byte> {
    PENDING_MAGIC + [PENDING_VERSION] + p.targetStoreHash + p.profileId + [p.network.Wire()] + p.salt + p.nonce
    + p.ciphertext + p.tag
  }

  function ParsePending(bytes: seq<byte>): Parse<Envelope> {
    if |bytes| != PENDING_SIZE || bytes[..8] != PENDING_MAGIC || bytes[8] != PENDING_VERSION || bytes[57] > 1 then
      Err(PendingProfileInvalid)
    else
      Ok(Envelope(
        bytes[9..41], bytes[41..57], if bytes[57] == 0 then Testnet else Mainnet, bytes[58..74], bytes[74..86],
        bytes[86..118], bytes[118..134]))
  }

  function MakePending(c: Crypto, store: seq<byte>, profileId: Bytes16, network: Network, entropy: Bytes32,
    password: seq<byte>, random: Random): Parse<seq<byte>>
  {
    var salt :- Drawn(random.salt);
    var nonce :- Drawn(random.nonce);
    var unsealed := Envelope(c.sha256(store), profileId, network, salt, nonce, [], ZERO16);
    var key :- DeriveEncryptionKey(c, password, salt);
    Ok(EncodePending(WithBox(unsealed, c.seal(key, nonce, PendingAad(unsealed), entropy))))
  }

  function WithBox(p: Envelope, box: Sealed): Envelope {
    p.(ciphertext := box.ciphertext, tag := box.tag)
  }

  datatype Prepared = Prepared(mnemonic: seq<byte>, pending: seq<byte>)

  function PrepareGeneratedProfile(c: Crypto, store: seq<byte>, password: seq<byte>, network: Network, random: Random)
    : Parse<Prepared>
  {
    var s :- DecodeStore(store);
    if !ValidPassword(password) then Err(InvalidArgument) else
    var entropy :- Drawn(random.entropy);
    var profileId :- FreshId(random.ids, ProfileIds(s.profiles));
    var pending :- MakePending(c, store, profileId, network, entropy, password, random);
    Ok(Prepared(c.mnemonic(entropy), pending))
  }

  function FinalizeGeneratedProfile(c: Crypto, store: seq<byte>, pending: seq<byte>, password: seq<byte>, random: Random)
    : Parse<Mutation<ProfileInfo>>
  {
    if !ValidPassword(password) then Err(InvalidArgument) else
    var s :- DecodeStore(store);
    var p :- ParsePending(pending);
    if p.targetStoreHash != c.sha256(store) then Err(PendingProfileInvalid) else
    var key :- DeriveEncryptionKey(c, password, p.salt);
    var plaintext := c.unseal(key, p.nonce, p.tag, PendingAad(p), p.ciphertext);
    if plaintext.None? then Err(AuthenticationFailed) else
    if |plaintext.value| != 32 then Err(PendingProfileInvalid) else
    FinalizeOpened(c, s, p, plaintext.value, password, random)
  }

  function FinalizeOpened(c: Crypto, s: Store, p: Envelope, entropy: Bytes32, password: seq<byte>, random: Random)
    : Parse<Mutation<ProfileInfo>>
  {
    if TagTaken(s.profiles, DuplicateTag(c, s.registryKey, p.network, entropy)) then Err(DuplicateProfile) else
    if p.profileId in ProfileIds(s.profiles) then Err(PendingProfileInvalid) else
    AddProfile(c, s, p.profileId, p.network, entropy, password, random)
  }
}
