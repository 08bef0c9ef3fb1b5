/**
 The text form shared by wrapped root keys, wrapped item keys and item content:
 base64url of a 24-byte nonce followed by the sealed box, bound to an identity.
 */
module Envelope {
  import opened Basics
  import opened Primitives
  import opened Aad
  import Base64

  const NONCE_LEN: nat := 24

  function SealText(prim: Primitives, key: Bytes, nonce: Bytes, id: Identity, plaintext: Bytes): string {
    Base64.UrlSafe(nonce + prim.seal(key, nonce, Build(id), plaintext))
  }

  /** None covers both exceptions: undecodable text and a failed tag check. */
  function OpenText(prim: Primitives, key: Bytes, id: Identity, text: string): Option<Bytes> {
    match Base64.Decoded(text)
    case None => None
    case Some(combined) => prim.open(key, Take(combined, NONCE_LEN), Build(id), Drop(combined, NONCE_LEN))
  }

  /** Filling the combined buffer: the nonce, then the box. */
  method Seal(prim: Primitives, key: Bytes, nonce: Bytes, id: Identity, plaintext: Bytes) returns (text: string)
    requires |nonce| == NONCE_LEN
    ensures text == SealText(prim, key, nonce, id, plaintext)
  {
    var aad := Aad.Concat(Parts(id));
    var ciphertext := prim.seal(key, nonce, aad[..], plaintext);
    var combined := new byte[NONCE_LEN + |ciphertext|];
    forall i | 0 <= i < NONCE_LEN {
      combined[i] := nonce[i];
    }
    forall i | 0 <= i < |ciphertext| {
      combined[NONCE_LEN + i] := ciphertext[i];
    }
    assert combined[..] == nonce + ciphertext;
    text := Base64.ToBase64(combined[..]);
  }

  /** What is opened: the box after the first 24 bytes, with those as the nonce; undecodable
      text does not open. */
  lemma OpensAfterNonce(prim: Primitives, key: Bytes, id: Identity, nonce: Bytes, box: Bytes, text: string)
    requires |nonce| == 24
    ensures OpenText(prim, key, id, Base64.UrlSafe(nonce + box)) == prim.open(key, nonce, Build(id), box)
    ensures Base64.Decoded(text) == None ==> OpenText(prim, key, id, text) == None
  {
    hide Base64.UrlSafe, Base64.Decoded, Build;
    Base64.RoundTrip(nonce + box);
    assert (nonce + box)[..24] == nonce && (nonce + box)[24..] == box;
  }

  /** A text opens exactly with the key and the encoded identity it was sealed with. */
  lemma OpenSealed(prim: Primitives, key: Bytes, nonce: Bytes, id: Identity, plaintext: Bytes, key': Bytes,
                   id': Identity)
    requires prim.Ideal() && |nonce| == NONCE_LEN
    ensures OpenText(prim, key', id', SealText(prim, key, nonce, id, plaintext))
         == if key' == key && Build(id') == Build(id) then Some(plaintext) else None
  {
    var combined := nonce + prim.seal(key, nonce, Build(id), plaintext);
    Base64.RoundTrip(combined);
    assert Take(combined, NONCE_LEN) == nonce;
    assert Drop(combined, NONCE_LEN) == prim.seal(key, nonce, Build(id), plaintext);
  }

  /** The same for well-formed identities, in terms of the identities themselves. */
  lemma OpenSealedIdentity(prim: Primitives, key: Bytes, nonce: Bytes, id: Identity, plaintext: Bytes, key': Bytes,
                           id': Identity)
    requires prim.Ideal() && |nonce| == NONCE_LEN && WellFormed(id) && WellFormed(id')
    ensures OpenText(prim, key', id', SealText(prim, key, nonce, id, plaintext))
         == if key' == key && Reduced(id') == Reduced(id) then Some(plaintext) else None
  {
    OpenSealed(prim, key, nonce, id, plaintext, key', id');
    Injective(id, id');
  }
}
