// A prepared profile is finalized once, on the Store it was prepared for, and as prepared.
module PendingTheory {
  import opened Wrappers
  import opened Bytes
  import opened WalletTypes
  import opened WalletCrypto
  import opened StoreFormat
  import opened StoreFormatTheory
  import opened StoreOps
  import opened MutationTheory
  import opened ProfileTheory
  import opened Pending

  // The envelope is read from exactly the bytes it is written to.
  lemma PendingCodec(bytes: seq<byte>, p: Envelope)
    ensures ParsePending(bytes) == Ok(p) <==> |p.ciphertext| == 32 && bytes == EncodePending(p)
  {
    if ParsePending(bytes) == Ok(p) {
      PendingRead(bytes, p);
    }
    if |p.ciphertext| == 32 && bytes == EncodePending(p) {
      PendingWritten(p);
    }
  }

  lemma PendingRead(bytes: seq<byte>, p: Envelope)
    requires ParsePending(bytes) == Ok(p)
    ensures |p.ciphertext| == 32 && bytes == EncodePending(p)
  {
    assert bytes == bytes[..8] + [bytes[8]] + bytes[9..41] + bytes[41..57] + [bytes[57]] + bytes[58..74] + bytes[74..86]
      + bytes[86..118] + bytes[118..134];
  }

  lemma PendingWritten(p: Envelope)
    requires |p.ciphertext| == 32
    ensures ParsePending(EncodePending(p)) == Ok(p)
  {
    var bytes := EncodePending(p);
    assert |bytes| == PENDING_SIZE;
    assert bytes[..8] == PENDING_MAGIC && bytes[8] == PENDING_VERSION && bytes[57] == p.network.Wire();
    assert bytes[9..41] == p.targetStoreHash;
    assert bytes[41..57] == p.profileId;
    assert bytes[58..74] == p.salt;
    assert bytes[74..86] == p.nonce;
    assert bytes[86..118] == p.ciphertext;
    assert bytes[118..134] == p.tag;
  }

  // Finalizing what was prepared for this Store adds the prepared profile, unless its mnemonic
  // is already there on that network.
  lemma FinalizePrepared(
    c: Crypto, store: seq<byte>, password: seq<byte>, network: Network, random: Random, prepared: Prepared,
    later: Random) returns (s: Store, profileId: Bytes16, entropy: Bytes32)
    requires PrepareGeneratedProfile(c, store, password, network, random) == Ok(prepared)
    ensures DecodeStore(store) == Ok(s) && profileId !in ProfileIds(s.profiles)
    ensures random.entropy == Some(entropy) && prepared.mnemonic == c.mnemonic(entropy)
    ensures FinalizeGeneratedProfile(c, store, prepared.pending, password, later) ==
      if TagTaken(s.profiles, DuplicateTag(c, s.registryKey, network, entropy)) then Err(DuplicateProfile)
      else AddProfile(c, s, profileId, network, entropy, password, later)
  {
    hide DecodeStore, FreshId, ProfileIds, TagTaken, DuplicateTag, AddProfile, EncodePending, ParsePending, PendingAad,
      ValidPassword;
    s := DecodeStore(store).value;
    entropy := random.entropy.value;
    profileId := FreshId(random.ids, ProfileIds(s.profiles)).value;
    var unsealed :=
      Envelope(c.sha256(store), profileId, network, random.salt.value, random.nonce.value, [], ZERO16);
    var key := DeriveEncryptionKey(c, password, unsealed.salt).value;
    var p := WithBox(unsealed, c.seal(key, unsealed.nonce, PendingAad(unsealed), entropy));
    SameAad(unsealed, p);
    PendingCodec(EncodePending(p), p);
  }

  lemma SameAad(p: Envelope, q: Envelope)
    requires p.targetStoreHash == q.targetStoreHash && p.profileId == q.profileId && p.network == q.network
    ensures PendingAad(p) == PendingAad(q)
  {
  }

  // A finalized profile is the one its envelope names, with the entropy sealed in it.
  lemma FinalizedOpens(
    c: Crypto, store: seq<byte>, pending: seq<byte>, password: seq<byte>, random: Random, m: Mutation<ProfileInfo>)
    returns (s: Store, p: Envelope, entropy: Bytes32)
    requires FinalizeGeneratedProfile(c, store, pending, password, random) == Ok(m)
    ensures DecodeStore(store) == Ok(s) && ParsePending(pending) == Ok(p)
    ensures p.targetStoreHash == c.sha256(store) && ValidPassword(password)
    ensures c.unseal(c.argon2id(password, p.salt), p.nonce, p.tag, PendingAad(p), p.ciphertext) == Some(entropy)
    ensures p.profileId !in ProfileIds(s.profiles)
    ensures !TagTaken(s.profiles, DuplicateTag(c, s.registryKey, p.network, entropy))
    ensures AddProfile(c, s, p.profileId, p.network, entropy, password, random) == Ok(m)
  {
    hide DecodeStore, ProfileIds, TagTaken, DuplicateTag, AddProfile, ParsePending, PendingAad, ValidPassword;
    s := DecodeStore(store).value;
    p := ParsePending(pending).value;
    entropy := c.unseal(c.argon2id(password, p.salt), p.nonce, p.tag, PendingAad(p), p.ciphertext).value;
  }

  // An envelope works once: on the Store that finalizing it gave, it is refused, even if the
  // two Stores had the same hash.
  lemma FinalizeOnlyOnce(
    c: Crypto, store: seq<byte>, pending: seq<byte>, password: seq<byte>, random: Random, m: Mutation<ProfileInfo>,
    later: Random)
    requires FinalizeGeneratedProfile(c, store, pending, password, random) == Ok(m)
    ensures FinalizeGeneratedProfile(c, m.store, pending, password, later) ==
      Err(if c.sha256(m.store) != c.sha256(store) then PendingProfileInvalid else DuplicateProfile)
  {
    hide DecodeStore, ProfileIds, DuplicateTag, AddProfile, ParsePending, PendingAad, ValidPassword, TagTaken,
      StoreWellFormed, Authenticate;
    var s, p, entropy := FinalizedOpens(c, store, pending, password, random, m);
    StoreCodec(store, s);
    var added, k := AddedProfile(c, s, p.profileId, p.network, entropy, password, random, m);
    var t := WithProfile(s, added);
    OpenedSize(c, password, p, entropy);
    NowTaken(t.profiles, k, DuplicateTag(c, s.registryKey, p.network, entropy));
  }

  lemma OpenedSize(c: Crypto, password: seq<byte>, p: Envelope, entropy: Bytes32)
    requires c.unseal(c.argon2id(password, p.salt), p.nonce, p.tag, PendingAad(p), p.ciphertext) == Some(entropy)
    ensures |p.ciphertext| == 32
  {
  }

  lemma DeleteUndoesFinalize(
    c: Crypto, store: seq<byte>, pending: seq<byte>, password: seq<byte>, random: Random, m: Mutation<ProfileInfo>)
    requires FinalizeGeneratedProfile(c, store, pending, password, random) == Ok(m)
    ensures DeleteProfile(c, m.store, m.value.profileId, password) == Ok(Mutation(store, ()))
  {
    hide DecodeStore, ProfileIds, DuplicateTag, AddProfile, ParsePending, PendingAad, TagTaken, DeleteProfile;
    var s, p, entropy := FinalizedOpens(c, store, pending, password, random, m);
    AddedInfo(c, s, p.profileId, p.network, entropy, password, random, m);
    DeleteUndoesAdd(c, store, s, p.profileId, p.network, entropy, password, random, m);
  }
}
