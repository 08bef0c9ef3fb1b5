/** Wrapping the root key under a password-derived key or a recovery key. */
module Keys {
  import opened Basics
  import opened Primitives
  import opened Aad
  import opened Envelope
  import opened Text
  import Base32
  import Base64

  datatype RootWrapMeta = RootWrapMeta(profileId: Bytes, keyVersion: int)

  function WrapRootKey(prim: Primitives, rootKey: Bytes, kek: Bytes, meta: RootWrapMeta, nonce: Bytes): string {
    SealText(prim, kek, nonce, ZkRootWrap(meta.profileId, meta.keyVersion), rootKey)
  }

  function UnwrapRootKey(prim: Primitives, wrapped: string, kek: Bytes, meta: RootWrapMeta): Option<Bytes> {
    OpenText(prim, kek, ZkRootWrap(meta.profileId, meta.keyVersion), wrapped)
  }

  datatype Recovery = Recovery(recoveryKey: string, wrappedRootKey: string)

  function GenerateRecoveryKey(prim: Primitives, rootKey: Bytes, meta: RootWrapMeta, recoveryBytes: Bytes,
                               nonce: Bytes): Recovery
  {
    Recovery(Base32.FormatRecoveryKey(Base32.EncodedText(recoveryBytes)),
             WrapRootKey(prim, rootKey, recoveryBytes, meta, nonce))
  }

  function RecoverRootKey(prim: Primitives, casing: Casing, recoveryKey: string, wrapped: string,
                          meta: RootWrapMeta): Option<Bytes> {
    match Base32.DecodedText(casing, recoveryKey)
    case Err(_) => None
    case Ok(recoveryBytes) => UnwrapRootKey(prim, wrapped, recoveryBytes, meta)
  }

  method ZeroKey(key: array<byte>)
    modifies key
    ensures key[..] == Zeros(key.Length)
  {
    for i := 0 to key.Length
      invariant key[..i] == Zeros(i)
    {
      key[i] := 0;
    }
  }

  function Zeros(n: nat): (b: Bytes)
    ensures |b| == n
  {
    seq(n, _ => 0)
  }

  /** A wrapped root key opens exactly under the wrapping key for the profile and
      the key version it was wrapped for. */
  lemma UnwrapExact(prim: Primitives, rootKey: Bytes, kek: Bytes, meta: RootWrapMeta, nonce: Bytes, kek': Bytes,
                    meta': RootWrapMeta)
    requires prim.Ideal() && |nonce| == NONCE_LEN
    requires NulFree(meta.profileId) && NulFree(meta'.profileId)
    ensures UnwrapRootKey(prim, WrapRootKey(prim, rootKey, kek, meta, nonce), kek', meta')
         == if kek' == kek && meta'.profileId == meta.profileId
               && meta'.keyVersion % 0x1_0000_0000 == meta.keyVersion % 0x1_0000_0000
            then Some(rootKey) else None
  {
    OpenSealedIdentity(prim, kek, nonce, ZkRootWrap(meta.profileId, meta.keyVersion), rootKey,
                       kek', ZkRootWrap(meta'.profileId, meta'.keyVersion));
  }

  /** The stored form of a wrapped root key: a nonce, then the key sealed for its profile and
      key version. */
  lemma WrappedForm(prim: Primitives, rootKey: Bytes, kek: Bytes, profileId: Bytes, keyVersion: int, nonce: Bytes)
    ensures Base64.Decoded(WrapRootKey(prim, rootKey, kek, RootWrapMeta(profileId, keyVersion), nonce))
         == Some(nonce + prim.seal(kek, nonce, Build(ZkRootWrap(profileId, keyVersion)), rootKey))
  {
    hide Base64.UrlSafe, Base64.Decoded, Build;
    Base64.RoundTrip(nonce + prim.seal(kek, nonce, Build(ZkRootWrap(profileId, keyVersion)), rootKey));
  }

  /** A generated recovery key is shown as the base32 text of its bytes with a dash after
      every five characters. */
  lemma RecoveryKeyShown(prim: Primitives, rootKey: Bytes, meta: RootWrapMeta, recoveryBytes: Bytes, nonce: Bytes)
    requires recoveryBytes != []
    ensures var shown := GenerateRecoveryKey(prim, rootKey, meta, recoveryBytes, nonce).recoveryKey;
            var text := Base32.EncodedText(recoveryBytes);
            |text| == (8 * |recoveryBytes| + 4) / 5 && Base32.Dashed(shown, text)
  {
    hide Base32.EncodedText, Base32.FormatRecoveryKey;
    Base32.EncodedOneLine(recoveryBytes);
    Base32.EncodedCount(recoveryBytes);
    Base32.DashedEveryFive(Base32.EncodedText(recoveryBytes));
  }

  /** Recovery is exact: typed in any text form that cleans to a canonical key, the
      recovery key gives back the root key when, and only when, it encodes the
      recovery bytes. */
  lemma RecoveryExact(prim: Primitives, casing: Casing, rootKey: Bytes, meta: RootWrapMeta, recoveryBytes: Bytes,
                      nonce: Bytes,
                      typed: string)
    requires UpperCases(casing)
    requires prim.Ideal() && |nonce| == NONCE_LEN
    ensures var r := GenerateRecoveryKey(prim, rootKey, meta, recoveryBytes, nonce);
            RecoverRootKey(prim, casing, r.recoveryKey, r.wrappedRootKey, meta) == Some(rootKey)
    ensures var r := GenerateRecoveryKey(prim, rootKey, meta, recoveryBytes, nonce);
            RecoverRootKey(prim, casing, typed, r.wrappedRootKey, meta)
            == if Base32.DecodedText(casing, typed) == Ok(recoveryBytes) then Some(rootKey) else None
  {
    Base32.RecoveryKeyRoundTrip(casing, recoveryBytes);
    var id := ZkRootWrap(meta.profileId, meta.keyVersion);
    OpenSealed(prim, recoveryBytes, nonce, id, rootKey, recoveryBytes, id);
    var typedBytes := Base32.DecodedText(casing, typed);
    if typedBytes.Ok? {
      OpenSealed(prim, recoveryBytes, nonce, id, rootKey, typedBytes.value, id);
    }
  }
}
