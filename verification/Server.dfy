/**
 Server-managed items: content sealed under a base64 key, with a key-commitment
 prefix from format version 4 on, and the per-profile key wrapped under the master key.
 */
module Server {
  import opened Basics
  import opened Words
  import opened Primitives
  import opened Aad
  import Base64

  const IV_LENGTH: nat := 12
  const COMMIT_MIN_VERSION: nat := 4
  const COMMITMENT_LENGTH: nat := 32
  const DEK_LENGTH: nat := 32

  datatype ServerItem = ServerItem(ciphertext: string, iv: string, keyVersion: int)

  datatype ServerError = BadKey | BadText | CommitmentMismatch | TagMismatch | BadDekLength

  /** `importKey`: the key must decode to exactly 32 bytes. */
  function ImportKey(base64Key: string): Option<Bytes> {
    match Base64.Decoded(base64Key)
    case Some(raw) => if |raw| == 32 then Some(raw) else None
    case None => None
  }

  /** No metadata means no additional data. */
  function AadBytes(aad: Option<Identity>): Bytes {
    match aad
    case Some(id) => Build(id)
    case None => []
  }

  /** Opening a wrapped profile key: the box after the first 12 bytes, with those as the IV; a
      key of another length than 32 is refused. */
  lemma UnwrapsAfterIv(prim: Primitives, masterKey: string, orgId: Bytes, profileId: Bytes, iv: Bytes, box: Bytes)
    requires |iv| == 12 && ImportKey(masterKey).Some?
    ensures var r := UnwrappedServerDek(prim, masterKey, Base64.UrlSafe(iv + box), orgId, profileId);
            match prim.open(ImportKey(masterKey).value, iv, Build(ServerDekWrap(orgId, profileId)), box)
            case None => r == Err(TagMismatch)
            case Some(dek) => r == if |dek| == 32 then Ok(dek) else Err(BadDekLength)
  {
    hide Base64.UrlSafe, Base64.Decoded, Build, ImportKey;
    Base64.RoundTrip(iv + box);
    assert (iv + box)[..12] == iv && (iv + box)[12..] == box;
  }

  // ---- constant-time comparison ------------------------------------------------------

  method ConstantTimeEqual(a: Bytes, b: Bytes) returns (equal: bool)
    ensures equal <==> a == b
  {
    if |a| != |b| {
      return false;
    }
    var diff: nat := 0;
    for i := 0 to |a|
      invariant diff == 0 <==> a[..i] == b[..i]
    {
      XorIsZero(a[i], b[i]);
      OrIsZero(diff, Xor(a[i], b[i]));
      assert a[..i + 1] == a[..i] + [a[i]] && b[..i + 1] == b[..i] + [b[i]];
      diff := Or(diff, Xor(a[i], b[i]));
    }
    assert a[..|a|] == a && b[..|b|] == b;
    equal := diff == 0;
  }

  // ---- content -------------------------------------------------------------------------

  function Body(prim: Primitives, key: Bytes, keyVersion: int, encrypted: Bytes): Bytes {
    if keyVersion >= COMMIT_MIN_VERSION then prim.commit(key) + encrypted else encrypted
  }

  function ServerEncrypted(prim: Primitives, plaintext: Bytes, base64Key: string, keyVersion: int,
                           aad: Option<Identity>, iv: Bytes): Result<ServerItem, ServerError>
  {
    match ImportKey(base64Key)
    case None => Err(BadKey)
    case Some(key) =>
      Ok(ServerItem(Base64.UrlSafe(Body(prim, key, keyVersion, prim.seal(key, iv, AadBytes(aad), plaintext))),
                    Base64.UrlSafe(iv), keyVersion))
  }

  method ServerEncrypt(prim: Primitives, plaintext: Bytes, base64Key: string, keyVersion: int,
                       aad: Option<Identity>, iv: Bytes)
    returns (r: Result<ServerItem, ServerError>)
    ensures r == ServerEncrypted(prim, plaintext, base64Key, keyVersion, aad, iv)
  {
    hide Base64.UrlSafe, Base64.Decoded, Build;
    var key := ImportKey(base64Key);
    if key == None {
      return Err(BadKey);
    }
    var encrypted := prim.seal(key.value, iv, AadBytes(aad), plaintext);
    var body := encrypted;
    if keyVersion >= COMMIT_MIN_VERSION {
      var commitment := prim.commit(key.value);
      var buffer := new byte[|commitment| + |encrypted|];
      forall i | 0 <= i < |commitment| {
        buffer[i] := commitment[i];
      }
      forall i | 0 <= i < |encrypted| {
        buffer[|commitment| + i] := encrypted[i];
      }
      assert buffer[..] == commitment + encrypted;
      body := buffer[..];
    }
    var ciphertext := Base64.ToBase64(body);
    var ivText := Base64.ToBase64(iv);
    r := Ok(ServerItem(ciphertext, ivText, keyVersion));
  }

  function ServerDecrypted(prim: Primitives, item: ServerItem, base64Key: string, aad: Option<Identity>):
    Result<Bytes, ServerError>
  {
    match ImportKey(base64Key)
    case None => Err(BadKey)
    case Some(key) =>
      match (Base64.Decoded(item.ciphertext), Base64.Decoded(item.iv))
      case (Some(combined), Some(iv)) =>
        if item.keyVersion >= COMMIT_MIN_VERSION && Take(combined, COMMITMENT_LENGTH) != prim.commit(key) then
          Err(CommitmentMismatch)
        else
          var box := if item.keyVersion >= COMMIT_MIN_VERSION then Drop(combined, COMMITMENT_LENGTH) else combined;
          (match prim.open(key, iv, AadBytes(aad), box)
           case Some(p) => Ok(p)
           case None => Err(TagMismatch))
      case _ => Err(BadText)
  }

  method ServerDecrypt(prim: Primitives, item: ServerItem, base64Key: string, aad: Option<Identity>)
    returns (r: Result<Bytes, ServerError>)
    ensures r == ServerDecrypted(prim, item, base64Key, aad)
  {
    var key := ImportKey(base64Key);
    if key == None {
      return Err(BadKey);
    }
    var combined := Base64.FromBase64(item.ciphertext);
    var iv := Base64.FromBase64(item.iv);
    if combined == None || iv == None {
      return Err(BadText);
    }
    var ciphertext := combined.value;
    if item.keyVersion >= COMMIT_MIN_VERSION {
      var stored := Take(ciphertext, COMMITMENT_LENGTH);
      var expected := prim.commit(key.value);
      var same := ConstantTimeEqual(stored, expected);
      if !same {
        return Err(CommitmentMismatch);
      }
      ciphertext := Drop(ciphertext, COMMITMENT_LENGTH);
    }
    var decrypted := prim.open(key.value, iv.value, AadBytes(aad), ciphertext);
    r := if decrypted.Some? then Ok(decrypted.value) else Err(TagMismatch);
  }

  /** What decrypting a stored item gives, for every plaintext, format version and
      choice of metadata, on both sides of the commitment threshold: the plaintext
      with the same key and the same encoded metadata; otherwise an error, which from
      version 4 on is the commitment's whenever the two keys' commitments differ. */
  lemma DecryptExact(prim: Primitives, plaintext: Bytes, base64Key: string, keyVersion: int, aad: Option<Identity>,
                     iv: Bytes, base64Key': string, aad': Option<Identity>)
    requires prim.Ideal()
    requires ImportKey(base64Key).Some? && ImportKey(base64Key').Some?
    ensures var item := ServerEncrypted(prim, plaintext, base64Key, keyVersion, aad, iv).value;
            var key, key' := ImportKey(base64Key).value, ImportKey(base64Key').value;
            ServerDecrypted(prim, item, base64Key', aad')
            == if keyVersion >= COMMIT_MIN_VERSION && prim.commit(key') != prim.commit(key) then Err(CommitmentMismatch)
               else if key' == key && AadBytes(aad') == AadBytes(aad) then Ok(plaintext)
               else Err(TagMismatch)
  {
    hide Base64.UrlSafe, Base64.Decoded, Build;
    var key := ImportKey(base64Key).value;
    var encrypted := prim.seal(key, iv, AadBytes(aad), plaintext);
    Base64.RoundTrip(Body(prim, key, keyVersion, encrypted));
    Base64.RoundTrip(iv);
    var combined := prim.commit(key) + encrypted;
    assert Take(combined, COMMITMENT_LENGTH) == prim.commit(key);
    assert Drop(combined, COMMITMENT_LENGTH) == encrypted;
  }

  /** The stored form of server-managed content: from version 4 on the 32-byte commitment to
      the key, then the box sealed under the metadata if any; and the IV by itself. */
  lemma StoredForm(prim: Primitives, plaintext: Bytes, base64Key: string, keyVersion: int, aad: Option<Identity>,
                   iv: Bytes)
    requires ImportKey(base64Key).Some?
    ensures var r, key := ServerEncrypted(prim, plaintext, base64Key, keyVersion, aad, iv), ImportKey(base64Key).value;
            var box := prim.seal(key, iv, if aad == None then [] else Build(aad.value), plaintext);
            r.Ok? && r.value.keyVersion == keyVersion && Base64.Decoded(r.value.iv) == Some(iv)
            && Base64.Decoded(r.value.ciphertext) == Some(if keyVersion >= 4 then prim.commit(key) + box else box)
  {
    hide Base64.UrlSafe, Base64.Decoded, Build;
    var key := ImportKey(base64Key).value;
    Base64.RoundTrip(iv);
    Base64.RoundTrip(Body(prim, key, keyVersion, prim.seal(key, iv, AadBytes(aad), plaintext)));
  }

  /** A key is any text of exactly 32 bytes. */
  lemma KeyIs32Bytes(raw: Bytes, text: string)
    ensures ImportKey(Base64.UrlSafe(raw)) == if |raw| == 32 then Some(raw) else None
    ensures Base64.Decoded(text) == None ==> ImportKey(text) == None
  {
    hide Base64.UrlSafe, Base64.Decoded;
    Base64.RoundTrip(raw);
  }

  /** Decrypting anything at all: a bad key, then undecodable text, then a commitment that is
      not the key's, are told apart before anything is opened. */
  lemma DecryptErrors(prim: Primitives, item: ServerItem, base64Key: string, aad: Option<Identity>)
    ensures var r, key := ServerDecrypted(prim, item, base64Key, aad), ImportKey(base64Key);
            var body, iv := Base64.Decoded(item.ciphertext), Base64.Decoded(item.iv);
            if key == None then r == Err(BadKey)
            else if body == None || iv == None then r == Err(BadText)
            else if item.keyVersion >= 4 && (|body.value| < 32 || body.value[..32] != prim.commit(key.value))
                    && |prim.commit(key.value)| == 32 then r == Err(CommitmentMismatch)
            else r.Ok? || r == Err(TagMismatch) || |prim.commit(key.value)| != 32
  {
    hide Base64.Decoded, Build;
  }

  /** And of a wrapped profile key: a 12-byte IV, then the key sealed for its organization and
      profile. */
  lemma WrappedForm(prim: Primitives, masterKey: string, dek: Bytes, orgId: Bytes, profileId: Bytes, iv: Bytes)
    requires ImportKey(masterKey).Some?
    ensures var r := WrappedServerDek(prim, masterKey, dek, orgId, profileId, iv);
            if |dek| == 32
            then r.Ok? && Base64.Decoded(r.value)
                          == Some(iv + prim.seal(ImportKey(masterKey).value, iv,
                                                 Build(ServerDekWrap(orgId, profileId)), dek))
            else r == Err(BadDekLength)
  {
    hide Base64.UrlSafe, Base64.Decoded, Build;
    Base64.RoundTrip(iv + prim.seal(ImportKey(masterKey).value, iv, Build(ServerDekWrap(orgId, profileId)), dek));
  }

  /** Content sealed with metadata is never opened without it, nor the reverse, and
      well-formed metadata must agree. */
  lemma AadExact(a: Option<Identity>, b: Option<Identity>)
    requires a.Some? ==> WellFormed(a.value)
    requires b.Some? ==> WellFormed(b.value)
    ensures AadBytes(a) == AadBytes(b) <==> (a.Some? <==> b.Some?) && (a.Some? ==> Reduced(a.value) == Reduced(b.value))
  {
    if a.Some? {
      BuildSplit(a.value);
    }
    if b.Some? {
      BuildSplit(b.value);
    }
    if a.Some? && b.Some? {
      Injective(a.value, b.value);
    }
  }

  // ---- the per-profile key ---------------------------------------------------------------

  function WrappedServerDek(prim: Primitives, masterKey: string, dek: Bytes, orgId: Bytes, profileId: Bytes,
                            iv: Bytes): Result<string, ServerError>
  {
    if |dek| != DEK_LENGTH then Err(BadDekLength)
    else
      match ImportKey(masterKey)
      case None => Err(BadKey)
      case Some(key) => Ok(Base64.UrlSafe(iv + prim.seal(key, iv, Build(ServerDekWrap(orgId, profileId)), dek)))
  }

  function UnwrappedServerDek(prim: Primitives, masterKey: string, wrapped: string, orgId: Bytes,
                              profileId: Bytes): Result<Bytes, ServerError>
  {
    match ImportKey(masterKey)
    case None => Err(BadKey)
    case Some(key) =>
      match Base64.Decoded(wrapped)
      case None => Err(BadText)
      case Some(combined) =>
        match prim.open(key, Take(combined, IV_LENGTH), Build(ServerDekWrap(orgId, profileId)),
                        Drop(combined, IV_LENGTH))
        case None => Err(TagMismatch)
        case Some(dek) => if |dek| == DEK_LENGTH then Ok(dek) else Err(BadDekLength)
  }

  /** A wrapped profile key unwraps exactly under the master key and for the
      organization and profile it was wrapped for. */
  lemma UnwrapDekExact(prim: Primitives, master: string, dek: Bytes, orgId: Bytes, profileId: Bytes, iv: Bytes,
                       master': string, orgId': Bytes, profileId': Bytes)
    requires prim.Ideal() && |iv| == IV_LENGTH && |dek| == DEK_LENGTH
    requires ImportKey(master).Some? && ImportKey(master').Some?
    requires WellFormed(ServerDekWrap(orgId, profileId)) && WellFormed(ServerDekWrap(orgId', profileId'))
    ensures var wrapped := WrappedServerDek(prim, master, dek, orgId, profileId, iv);
            wrapped.Ok?
            && UnwrappedServerDek(prim, master', wrapped.value, orgId', profileId')
               == if ImportKey(master') == ImportKey(master) && orgId' == orgId && profileId' == profileId
                  then Ok(dek) else Err(TagMismatch)
  {
    var id := ServerDekWrap(orgId, profileId);
    var combined := iv + prim.seal(ImportKey(master).value, iv, Build(id), dek);
    Base64.RoundTrip(combined);
    assert Take(combined, IV_LENGTH) == iv;
    assert Drop(combined, IV_LENGTH) == prim.seal(ImportKey(master).value, iv, Build(id), dek);
    Injective(id, ServerDekWrap(orgId', profileId'));
  }
}
