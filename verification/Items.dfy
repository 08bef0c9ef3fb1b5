/**
 Zero-knowledge items: content sealed under a per-item key (DEK), the DEK sealed
 under the profile's root key, and root-key rotation, which re-wraps DEKs only.
 */
module Items {
  import opened Basics
  import opened Primitives
  import opened Aad
  import opened Envelope
  import opened Keys
  import Base64

  datatype ZkItemMeta = ZkItemMeta(profileId: Bytes, itemId: Bytes, contentVersion: Option<int>)

  datatype EncryptedItem = EncryptedItem(encryptedItemKey: string, ciphertext: string)

  /** `meta.contentVersion ?? 1`. */
  function Version(meta: ZkItemMeta): int {
    match meta.contentVersion
    case Some(v) => v
    case None => 1
  }

  function ContentId(meta: ZkItemMeta): Identity {
    ZkContent(meta.profileId, meta.itemId, Version(meta))
  }

  function KeyId(meta: ZkItemMeta): Identity {
    ZkDekWrap(meta.profileId, meta.itemId)
  }

  function EncryptedWith(prim: Primitives, plaintext: Bytes, rootKey: Bytes, meta: ZkItemMeta,
                         dek: Bytes, contentNonce: Bytes, keyNonce: Bytes): EncryptedItem
  {
    EncryptedItem(SealText(prim, rootKey, keyNonce, KeyId(meta), dek),
                  SealText(prim, dek, contentNonce, ContentId(meta), plaintext))
  }

  /** `encryptItem`; the random DEK and nonces are parameters. */
  method EncryptItem(prim: Primitives, plaintext: Bytes, rootKey: Bytes, meta: ZkItemMeta,
                     dek: array<byte>, contentNonce: Bytes, keyNonce: Bytes)
    returns (item: EncryptedItem)
    requires |contentNonce| == NONCE_LEN && |keyNonce| == NONCE_LEN
    modifies dek
    ensures item == EncryptedWith(prim, plaintext, rootKey, meta, old(dek[..]), contentNonce, keyNonce)
    ensures dek[..] == Zeros(dek.Length)
  {
    var ciphertext := Envelope.Seal(prim, dek[..], contentNonce, ContentId(meta), plaintext);
    var encryptedItemKey := Envelope.Seal(prim, rootKey, keyNonce, KeyId(meta), dek[..]);
    Keys.ZeroKey(dek);
    item := EncryptedItem(encryptedItemKey, ciphertext);
  }

  /** `decryptItem`; None is an exception. */
  function DecryptItem(prim: Primitives, item: EncryptedItem, rootKey: Bytes, meta: ZkItemMeta): Option<Bytes> {
    match OpenText(prim, rootKey, KeyId(meta), item.encryptedItemKey)
    case None => None
    case Some(dek) => OpenText(prim, dek, ContentId(meta), item.ciphertext)
  }

  /** `rekeyItem`; None is an exception. */
  function RekeyItem(prim: Primitives, encryptedItemKey: string, oldRootKey: Bytes, newRootKey: Bytes,
                     meta: ZkItemMeta, newNonce: Bytes): Option<string>
  {
    match OpenText(prim, oldRootKey, KeyId(meta), encryptedItemKey)
    case None => None
    case Some(dek) => Some(SealText(prim, newRootKey, newNonce, KeyId(meta), dek))
  }

  // ---- the stored form -----------------------------------------------------------------

  /** What encryptItem stores: the item key sealed under the root key for the profile and the
      item, the content sealed under the item key for the content version as well, which is
      1 when none is given; each after its own nonce. */
  lemma StoredForm(prim: Primitives, plaintext: Bytes, rootKey: Bytes, profileId: Bytes, itemId: Bytes,
                   version: Option<int>, dek: Bytes, contentNonce: Bytes, keyNonce: Bytes)
    ensures var item := EncryptedWith(prim, plaintext, rootKey, ZkItemMeta(profileId, itemId, version), dek,
                                      contentNonce, keyNonce);
            Base64.Decoded(item.encryptedItemKey)
            == Some(keyNonce + prim.seal(rootKey, keyNonce, Build(ZkDekWrap(profileId, itemId)), dek))
            && Base64.Decoded(item.ciphertext)
               == Some(contentNonce + prim.seal(dek, contentNonce,
                                                Build(ZkContent(profileId, itemId, if version == None
                                                                  then 1 else version.value)),
                                                plaintext))
  {
    hide Base64.UrlSafe, Base64.Decoded, Build;
    Base64.RoundTrip(keyNonce + prim.seal(rootKey, keyNonce, Build(ZkDekWrap(profileId, itemId)), dek));
    Base64.RoundTrip(contentNonce
                     + prim.seal(dek, contentNonce,
                                 Build(ZkContent(profileId, itemId, if version == None then 1 else version.value)),
                                 plaintext));
  }

  // ---- one item --------------------------------------------------------------------

  /** Which combinations open. The item key of one row (sealed for `key`) and the
      content of another (sealed for `content`) open together under a root key and
      an identity exactly when all of them agree, and then give that content. So a
      wrong profile, item, content version, root key or another row's item key is
      rejected. */
  lemma DecryptExact(prim: Primitives, root: Bytes, key: ZkItemMeta, dek: Bytes, keyNonce: Bytes,
                     content: ZkItemMeta, dek': Bytes, contentNonce: Bytes, plaintext: Bytes,
                     root': Bytes, meta: ZkItemMeta)
    requires prim.Ideal() && |keyNonce| == NONCE_LEN && |contentNonce| == NONCE_LEN
    requires WellFormed(KeyId(key)) && WellFormed(KeyId(content)) && WellFormed(KeyId(meta))
    ensures var item := EncryptedItem(SealText(prim, root, keyNonce, KeyId(key), dek),
                                      SealText(prim, dek', contentNonce, ContentId(content), plaintext));
            DecryptItem(prim, item, root', meta)
            == if root' == root && dek' == dek
                  && meta.profileId == key.profileId == content.profileId
                  && meta.itemId == key.itemId == content.itemId
                  && Version(meta) % 0x1_0000_0000 == Version(content) % 0x1_0000_0000
               then Some(plaintext) else None
  {
    hide SealText, OpenText, Base64.UrlSafe, Base64.Decoded;
    OpenSealedIdentity(prim, root, keyNonce, KeyId(key), dek, root', KeyId(meta));
    OpenSealedIdentity(prim, dek', contentNonce, ContentId(content), plaintext, dek, ContentId(meta));
  }

  /** Rotation preserves meaning: re-wrapping succeeds exactly when the old root key
      opens the item key; afterwards, with any content and any content version, the
      new root key decrypts to what the old one did, and no other root key opens it. */
  lemma RekeyPreserves(prim: Primitives, wrapped: string, oldRoot: Bytes, newRoot: Bytes,
                       meta: ZkItemMeta, newNonce: Bytes, ciphertext: string, version: Option<int>, other: Bytes)
    requires prim.Ideal() && |newNonce| == NONCE_LEN
    ensures var r := RekeyItem(prim, wrapped, oldRoot, newRoot, meta, newNonce);
            var m := meta.(contentVersion := version);
            (r.Some? <==> OpenText(prim, oldRoot, KeyId(meta), wrapped).Some?)
            && (r.Some? ==>
                  DecryptItem(prim, EncryptedItem(r.value, ciphertext), newRoot, m)
                  == DecryptItem(prim, EncryptedItem(wrapped, ciphertext), oldRoot, m))
            && (r.Some? ==> OpenText(prim, newRoot, KeyId(meta), r.value)
                              == OpenText(prim, oldRoot, KeyId(meta), wrapped))
            && (r.Some? && other != newRoot ==>
                  DecryptItem(prim, EncryptedItem(r.value, ciphertext), other, m) == None)
  {
    var dek := OpenText(prim, oldRoot, KeyId(meta), wrapped);
    assert KeyId(meta.(contentVersion := version)) == KeyId(meta);
    if dek.Some? {
      OpenSealed(prim, newRoot, newNonce, KeyId(meta), dek.value, newRoot, KeyId(meta));
      OpenSealed(prim, newRoot, newNonce, KeyId(meta), dek.value, other, KeyId(meta));
    }
  }

  // ---- chains of rotations over a list of items ------------------------------------

  datatype Row = Row(id: Bytes, encryptedItemKey: string, ciphertext: string)

  /** One rotation: the new root key and one fresh nonce a row. */
  datatype Rotation = Rotation(newRootKey: Bytes, nonces: seq<Bytes>)

  function RowMeta(profileId: Bytes, row: Row, version: Option<int>): ZkItemMeta {
    ZkItemMeta(profileId, row.id, version)
  }

  function DecryptRow(prim: Primitives, profileId: Bytes, row: Row, rootKey: Bytes,
                      version: Option<int>): Option<Bytes>
  {
    DecryptItem(prim, EncryptedItem(row.encryptedItemKey, row.ciphertext), rootKey, RowMeta(profileId, row, version))
  }

  ghost predicate ValidRotation(rot: Rotation, n: nat) {
    |rot.nonces| == n && forall i :: 0 <= i < n ==> |rot.nonces[i]| == NONCE_LEN
  }

  lemma ValidLength(rot: Rotation, n: nat)
    requires ValidRotation(rot, n)
    ensures |rot.nonces| == n
  {}

  /** Re-wrapping every row; one failure throws away the whole batch. */
  function RekeyRows(prim: Primitives, profileId: Bytes, rows: seq<Row>, oldRoot: Bytes, newRoot: Bytes,
                     nonces: seq<Bytes>): Option<seq<Row>>
    requires |nonces| == |rows|
  {
    if rows == [] then Some([])
    else
      match RekeyItem(prim, rows[0].encryptedItemKey, oldRoot, newRoot, RowMeta(profileId, rows[0], None), nonces[0])
      case None => None
      case Some(k) =>
        match RekeyRows(prim, profileId, rows[1..], oldRoot, newRoot, nonces[1..])
        case None => None
        case Some(rest) => Some([rows[0].(encryptedItemKey := k)] + rest)
  }

  ghost predicate RowOpens(prim: Primitives, profileId: Bytes, row: Row, root: Bytes) {
    OpenText(prim, root, KeyId(RowMeta(profileId, row, None)), row.encryptedItemKey).Some?
  }

  ghost predicate Opens(prim: Primitives, profileId: Bytes, rows: seq<Row>, root: Bytes) {
    forall i :: 0 <= i < |rows| ==> RowOpens(prim, profileId, rows[i], root)
  }

  /** The row after rotation says the same under the new root key as the row before
      did under the old one, and its content text is untouched. */
  ghost predicate SameRow(prim: Primitives, profileId: Bytes, row: Row, root: Bytes, row': Row, root': Bytes) {
    && row'.id == row.id
    && row'.ciphertext == row.ciphertext
    && forall v :: DecryptRow(prim, profileId, row', root', v) == DecryptRow(prim, profileId, row, root, v)
  }

  ghost predicate SameMeaning(prim: Primitives, profileId: Bytes, rows: seq<Row>, root: Bytes, rows': seq<Row>,
                              root': Bytes)
  {
    |rows'| == |rows| && forall i :: 0 <= i < |rows| ==> SameRow(prim, profileId, rows[i], root, rows'[i], root')
  }

  lemma RekeyRow(prim: Primitives, profileId: Bytes, row: Row, oldRoot: Bytes, newRoot: Bytes, nonce: Bytes)
    requires prim.Ideal() && |nonce| == NONCE_LEN
    ensures var k := RekeyItem(prim, row.encryptedItemKey, oldRoot, newRoot, RowMeta(profileId, row, None), nonce);
            (k.Some? <==> RowOpens(prim, profileId, row, oldRoot))
            && (k.Some? ==> SameRow(prim, profileId, row, oldRoot, row.(encryptedItemKey := k.value), newRoot)
                            && RowOpens(prim, profileId, row.(encryptedItemKey := k.value), newRoot))
  {
    var meta := RowMeta(profileId, row, None);
    var k := RekeyItem(prim, row.encryptedItemKey, oldRoot, newRoot, meta, nonce);
    RekeyPreserves(prim, row.encryptedItemKey, oldRoot, newRoot, meta, nonce, row.ciphertext, None, oldRoot);
    if k.Some? {
      forall v
        ensures DecryptRow(prim, profileId, row.(encryptedItemKey := k.value), newRoot, v)
             == DecryptRow(prim, profileId, row, oldRoot, v)
      {
        RekeyPreserves(prim, row.encryptedItemKey, oldRoot, newRoot, meta, nonce, row.ciphertext, v, oldRoot);
      }
    }
  }

  lemma {:induction false} RekeyRowsPreserves(prim: Primitives, profileId: Bytes, rows: seq<Row>, oldRoot: Bytes,
                                              rot: Rotation)
    requires prim.Ideal() && ValidRotation(rot, |rows|)
    ensures var r := RekeyRows(prim, profileId, rows, oldRoot, rot.newRootKey, rot.nonces);
            (r.Some? <==> Opens(prim, profileId, rows, oldRoot))
            && (r.Some? ==> SameMeaning(prim, profileId, rows, oldRoot, r.value, rot.newRootKey)
                            && Opens(prim, profileId, r.value, rot.newRootKey))
    decreases |rows|
  {
    hide RowOpens, SameRow, RekeyItem;
    if rows != [] {
      var rest := Rotation(rot.newRootKey, rot.nonces[1..]);
      RekeyRowsPreserves(prim, profileId, rows[1..], oldRoot, rest);
      RekeyRow(prim, profileId, rows[0], oldRoot, rot.newRootKey, rot.nonces[0]);
      assert forall i :: 0 < i < |rows| ==> rows[i] == rows[1..][i - 1];
      assert forall i :: 0 <= i < |rows| - 1 ==> rows[1..][i] == rows[i + 1];
    }
  }

  ghost function RotateChain(prim: Primitives, profileId: Bytes, rows: seq<Row>, root: Bytes,
                             rots: seq<Rotation>): Option<seq<Row>>
    requires forall i :: 0 <= i < |rots| ==> ValidRotation(rots[i], |rows|)
    decreases |rots|
  {
    if rots == [] then Some(rows)
    else
      assert ValidRotation(rots[0], |rows|);
      match RekeyRows(prim, profileId, rows, root, rots[0].newRootKey, rots[0].nonces)
      case None => None
      case Some(rows') =>
        if |rows'| == |rows| then RotateChain(prim, profileId, rows', rots[0].newRootKey, rots[1..]) else None
  }

  function LastRoot(root: Bytes, rots: seq<Rotation>): Bytes {
    if rots == [] then root else rots[|rots| - 1].newRootKey
  }

  /** Any number of rotations over any list of items: when the first root key opens
      every item key, every rotation succeeds, no content text is rewritten, and the
      last root key decrypts every row, at every version, to what the first did. */
  lemma {:induction false} ChainPreserves(prim: Primitives, profileId: Bytes, rows: seq<Row>, root: Bytes,
                                          rots: seq<Rotation>)
    requires prim.Ideal() && Opens(prim, profileId, rows, root)
    requires forall i :: 0 <= i < |rots| ==> ValidRotation(rots[i], |rows|)
    ensures var r := RotateChain(prim, profileId, rows, root, rots);
            r.Some? && SameMeaning(prim, profileId, rows, root, r.value, LastRoot(root, rots))
            && Opens(prim, profileId, r.value, LastRoot(root, rots))
    decreases |rots|
  {
    hide RekeyRows, RowOpens, DecryptRow, ValidRotation;
    if rots != [] {
      assert ValidRotation(rots[0], |rows|);
      ValidLength(rots[0], |rows|);
      RekeyRowsPreserves(prim, profileId, rows, root, rots[0]);
      var rows' := RekeyRows(prim, profileId, rows, root, rots[0].newRootKey, rots[0].nonces).value;
      ChainPreserves(prim, profileId, rows', rots[0].newRootKey, rots[1..]);
      var last := RotateChain(prim, profileId, rows', rots[0].newRootKey, rots[1..]).value;
      forall i | 0 <= i < |rows|
        ensures SameRow(prim, profileId, rows[i], root, last[i], LastRoot(root, rots))
      {
        assert SameRow(prim, profileId, rows[i], root, rows'[i], rots[0].newRootKey);
        assert SameRow(prim, profileId, rows'[i], rots[0].newRootKey, last[i], LastRoot(root, rots));
      }
    }
  }

  // ---- items stored by encryptItem ---------------------------------------------------

  /** One call of encryptItem: what it was given, and what it drew at random. */
  datatype Stored = Stored(
    itemId: Bytes, version: Option<int>, plaintext: Bytes, dek: Bytes, contentNonce: Bytes, keyNonce: Bytes)

  function StoredMeta(profileId: Bytes, s: Stored): ZkItemMeta {
    ZkItemMeta(profileId, s.itemId, s.version)
  }

  ghost predicate ValidStored(profileId: Bytes, s: Stored) {
    && WellFormed(KeyId(StoredMeta(profileId, s)))
    && |s.contentNonce| == NONCE_LEN && |s.keyNonce| == NONCE_LEN
  }

  function StoredRow(prim: Primitives, profileId: Bytes, root: Bytes, s: Stored): Row {
    var item := EncryptedWith(prim, s.plaintext, root, StoredMeta(profileId, s), s.dek, s.contentNonce, s.keyNonce);
    Row(s.itemId, item.encryptedItemKey, item.ciphertext)
  }

  function StoredRows(prim: Primitives, profileId: Bytes, root: Bytes, items: seq<Stored>): (rows: seq<Row>)
    ensures |rows| == |items|
  {
    seq(|items|, i requires 0 <= i < |items| => StoredRow(prim, profileId, root, items[i]))
  }

  /** The row is that of the stored item, its item key sealed under this root key with
      some nonce. */
  ghost predicate SealedRow(prim: Primitives, profileId: Bytes, root: Bytes, s: Stored, row: Row) {
    && row.id == s.itemId
    && row.ciphertext == SealText(prim, s.dek, s.contentNonce, ContentId(StoredMeta(profileId, s)), s.plaintext)
    && SealedKey(prim, root, KeyId(StoredMeta(profileId, s)), s.dek, row.encryptedItemKey)
  }

  ghost predicate SealedKey(prim: Primitives, root: Bytes, id: Identity, dek: Bytes, wrapped: string) {
    exists nonce: Bytes :: |nonce| == NONCE_LEN && wrapped == SealText(prim, root, nonce, id, dek)
  }

  ghost predicate SealedRows(prim: Primitives, profileId: Bytes, root: Bytes, items: seq<Stored>, rows: seq<Row>) {
    |rows| == |items| && forall i :: 0 <= i < |rows| ==> SealedRow(prim, profileId, root, items[i], rows[i])
  }

  lemma StoredAreSealed(prim: Primitives, profileId: Bytes, root: Bytes, items: seq<Stored>)
    requires forall i :: 0 <= i < |items| ==> ValidStored(profileId, items[i])
    ensures SealedRows(prim, profileId, root, items, StoredRows(prim, profileId, root, items))
  {
    hide SealText;
    forall i | 0 <= i < |items|
      ensures SealedRow(prim, profileId, root, items[i], StoredRows(prim, profileId, root, items)[i])
    {
      assert ValidStored(profileId, items[i]);
    }
  }

  lemma RekeySealed(prim: Primitives, profileId: Bytes, root: Bytes, s: Stored, row: Row, newRoot: Bytes, nonce: Bytes)
    requires prim.Ideal() && |nonce| == NONCE_LEN && SealedRow(prim, profileId, root, s, row)
    ensures var k := RekeyItem(prim, row.encryptedItemKey, root, newRoot, RowMeta(profileId, row, None), nonce);
            k.Some? && SealedRow(prim, profileId, newRoot, s, row.(encryptedItemKey := k.value))
  {
    hide SealText, OpenText;
    var id := KeyId(StoredMeta(profileId, s));
    assert KeyId(RowMeta(profileId, row, None)) == id;
    var n: Bytes :| |n| == NONCE_LEN && row.encryptedItemKey == SealText(prim, root, n, id, s.dek);
    OpenSealed(prim, root, n, id, s.dek, root, id);
  }

  lemma {:induction false} RekeyRowsSealed(prim: Primitives, profileId: Bytes, root: Bytes, items: seq<Stored>,
                                           rows: seq<Row>, rot: Rotation)
    requires prim.Ideal() && ValidRotation(rot, |rows|) && SealedRows(prim, profileId, root, items, rows)
    ensures var r := RekeyRows(prim, profileId, rows, root, rot.newRootKey, rot.nonces);
            r.Some? && SealedRows(prim, profileId, rot.newRootKey, items, r.value)
    decreases |rows|
  {
    hide SealedRow, RekeyItem;
    if rows != [] {
      RekeySealed(prim, profileId, root, items[0], rows[0], rot.newRootKey, rot.nonces[0]);
      RekeyRowsSealed(prim, profileId, root, items[1..], rows[1..], Rotation(rot.newRootKey, rot.nonces[1..]));
      assert forall i :: 0 < i < |rows| ==> items[i] == items[1..][i - 1];
    }
  }

  /** After any chain every item key is still sealed, freshly, under the last root key. */
  lemma {:induction false} ChainSealed(prim: Primitives, profileId: Bytes, root: Bytes, items: seq<Stored>,
                                       rows: seq<Row>, rots: seq<Rotation>)
    requires prim.Ideal() && SealedRows(prim, profileId, root, items, rows)
    requires forall i :: 0 <= i < |rots| ==> ValidRotation(rots[i], |rows|)
    ensures var r := RotateChain(prim, profileId, rows, root, rots);
            r.Some? && SealedRows(prim, profileId, LastRoot(root, rots), items, r.value)
    decreases |rots|
  {
    hide RekeyRows, SealedRow, ValidRotation;
    if rots != [] {
      assert ValidRotation(rots[0], |rows|);
      ValidLength(rots[0], |rows|);
      RekeyRowsSealed(prim, profileId, root, items, rows, rots[0]);
      var rows' := RekeyRows(prim, profileId, rows, root, rots[0].newRootKey, rots[0].nonces).value;
      ChainSealed(prim, profileId, rots[0].newRootKey, items, rows', rots[1..]);
    }
  }

  /** Items stored by encryptItem, after any chain of rotations over all of them: the
      item key of row i and the content of row j open together, under any root key and
      any identity, exactly when the root key is the last one, the two rows share their
      item key, and profile, item and content version are those both were stored with;
      and then they give row j's plaintext. So a row decrypts under its own identity,
      and a different profile, item, version, root key or another row's key fails. */
  lemma StoredItemSurvives(prim: Primitives, profileId: Bytes, root: Bytes, items: seq<Stored>, rots: seq<Rotation>,
                           i: nat, j: nat, root': Bytes, meta: ZkItemMeta)
    requires prim.Ideal() && i < |items| && j < |items| && WellFormed(KeyId(meta))
    requires forall k :: 0 <= k < |items| ==> ValidStored(profileId, items[k])
    requires forall k :: 0 <= k < |rots| ==> ValidRotation(rots[k], |items|)
    ensures var rows := StoredRows(prim, profileId, root, items);
            var r := RotateChain(prim, profileId, rows, root, rots);
            r.Some? && |r.value| == |items| && r.value[j].ciphertext == rows[j].ciphertext
            && DecryptItem(prim, EncryptedItem(r.value[i].encryptedItemKey, r.value[j].ciphertext), root', meta)
               == if root' == LastRoot(root, rots) && items[i].dek == items[j].dek
                     && meta.profileId == profileId
                     && meta.itemId == items[i].itemId == items[j].itemId
                     && Version(meta) % 0x1_0000_0000 == Version(StoredMeta(profileId, items[j])) % 0x1_0000_0000
                  then Some(items[j].plaintext) else None
  {
    hide SealText, OpenText, DecryptItem, RotateChain, LastRoot, ValidRotation;
    var rows := StoredRows(prim, profileId, root, items);
    assert |rows| == |items|;
    StoredAreSealed(prim, profileId, root, items);
    ChainSealed(prim, profileId, root, items, rows, rots);
    var last := RotateChain(prim, profileId, rows, root, rots).value;
    var key := StoredMeta(profileId, items[i]);
    assert SealedRow(prim, profileId, LastRoot(root, rots), items[i], last[i]);
    assert SealedRow(prim, profileId, LastRoot(root, rots), items[j], last[j]);
    assert SealedRow(prim, profileId, root, items[j], rows[j]);
    assert ValidStored(profileId, items[i]) && ValidStored(profileId, items[j]);
    var n: Bytes :| |n| == NONCE_LEN
                    && last[i].encryptedItemKey == SealText(prim, LastRoot(root, rots), n, KeyId(key), items[i].dek);
    DecryptExact(prim, LastRoot(root, rots), key, items[i].dek, n, StoredMeta(profileId, items[j]), items[j].dek,
                 items[j].contentNonce, items[j].plaintext, root', meta);
  }
}
