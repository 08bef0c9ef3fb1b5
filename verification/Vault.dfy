/**
 The daemon's in-memory vault: the unlocked root key, the metadata it was unlocked
 with, and the auto-lock timer. `View` is the object's state as a value, `Step` what
 one call or timer firing does to it; the class does the same in place.
 */
module Vault {
  import opened Basics
  import opened Primitives
  import opened Envelope
  import opened Keys
  import opened Items
  import Aad
  import Base64

  datatype VaultMeta = VaultMeta(id: Bytes, wrappedRootKey: string, kdfSalt: string, keyVersion: int,
                                 kdfParams: KdfParams)

  datatype View = View(
    rootKey: Option<Bytes>,
    meta: Option<VaultMeta>,
    autoLockMs: int,
    /** The handle kept in `autoLockTimer`. */
    timer: Option<nat>,
    /** The timers the event loop still has to fire for this vault: handle to deadline. */
    pending: map<nat, int>,
    nextHandle: nat,
    onAutoLock: bool,
    /** Contents of every buffer that once held the root key. */
    retired: seq<Bytes>)

  datatype Event =
    | Unlock(now: int, password: string, meta: VaultMeta)
    | Lock
    | ChangePassword(now: int, oldPassword: string, newPassword: string, meta: VaultMeta, newSalt: Bytes, nonce: Bytes)
    | Encrypt(now: int, plaintext: Bytes, itemMeta: ZkItemMeta, dek: Bytes, contentNonce: Bytes, keyNonce: Bytes)
    | Decrypt(now: int, item: EncryptedItem, itemMeta: ZkItemMeta)
    | Rekey(now: int, rows: seq<Row>, oldRootKey: Bytes, profileId: Bytes, nonces: seq<Bytes>)
    | Fire(now: int, handle: nat)
    | SetCallback
    | Destroy

  datatype Reply =
    | Failed
    | Done
    | NewPassword(wrappedRootKey: string, kdfSalt: string, kdfParams: KdfParams)
    | Encrypted(item: EncryptedItem)
    | Payload(bytes: Bytes)
    | Rekeyed(rows: seq<Row>)

  ghost predicate WellFormedEvent(e: Event) {
    match e
    case ChangePassword(_, _, _, _, _, nonce) => |nonce| == NONCE_LEN
    case Encrypt(_, _, _, _, contentNonce, keyNonce) => |contentNonce| == NONCE_LEN && |keyNonce| == NONCE_LEN
    case Rekey(_, rows, _, _, nonces) => |nonces| == |rows|
    case _ => true
  }

  function RootMeta(meta: VaultMeta): RootWrapMeta {
    RootWrapMeta(meta.id, meta.keyVersion)
  }

  /** Deriving the wrapping key from a password and unwrapping the record's root key. */
  function OpenRecord(prim: Primitives, password: string, meta: VaultMeta): Option<Bytes> {
    match Base64.Decoded(meta.kdfSalt)
    case None => None
    case Some(salt) => UnwrapRootKey(prim, meta.wrappedRootKey, prim.derive(password, salt, meta.kdfParams),
                                     RootMeta(meta))
  }

  function Rewrapped(prim: Primitives, rootKey: Bytes, password: string, meta: VaultMeta, salt: Bytes,
                     nonce: Bytes): Reply
  {
    NewPassword(WrapRootKey(prim, rootKey, prim.derive(password, salt, meta.kdfParams), RootMeta(meta), nonce),
                Base64.UrlSafe(salt), meta.kdfParams)
  }

  function ClearAutoLock(v: View): View {
    match v.timer
    case Some(h) => v.(timer := None, pending := v.pending - {h})
    case None => v
  }

  function ResetAutoLock(v: View, now: int): View {
    var c := ClearAutoLock(v);
    if v.autoLockMs > 0 then
      c.(timer := Some(c.nextHandle), pending := c.pending[c.nextHandle := now + v.autoLockMs],
         nextHandle := c.nextHandle + 1)
    else c
  }

  function Locked(v: View): View {
    ClearAutoLock(match v.rootKey
                  case Some(k) => v.(rootKey := None, retired := v.retired + [Zeros(|k|)])
                  case None => v)
  }

  function Unlocked(v: View, rootKey: Bytes, meta: VaultMeta): View {
    v.(rootKey := Some(rootKey), meta := Some(meta),
       retired := match v.rootKey case Some(k) => v.retired + [k] case None => v.retired)
  }

  function Step(prim: Primitives, v: View, e: Event): (View, Reply)
    requires WellFormedEvent(e)
  {
    match e
    case Unlock(now, password, meta) =>
      (match OpenRecord(prim, password, meta)
       case Some(k) => (ResetAutoLock(Unlocked(v, k, meta), now), Done)
       case None => (v, Failed))
    case Lock => (Locked(v), Done)
    case ChangePassword(now, oldPassword, newPassword, meta, newSalt, nonce) =>
      if v.rootKey.Some? && OpenRecord(prim, oldPassword, meta).Some? then
        (ResetAutoLock(v, now), Rewrapped(prim, v.rootKey.value, newPassword, meta, newSalt, nonce))
      else (v, Failed)
    case Encrypt(now, plaintext, meta, dek, contentNonce, keyNonce) =>
      if v.rootKey.Some? then
        (ResetAutoLock(v, now),
         Encrypted(EncryptedWith(prim, plaintext, v.rootKey.value, meta, dek, contentNonce, keyNonce)))
      else (v, Failed)
    case Decrypt(now, item, meta) =>
      if v.rootKey.None? then (v, Failed)
      else
        (match DecryptItem(prim, item, v.rootKey.value, meta)
         case Some(bytes) => if prim.parses(bytes) then (ResetAutoLock(v, now), Payload(bytes)) else (v, Failed)
         case None => (v, Failed))
    case Rekey(now, rows, oldRootKey, profileId, nonces) =>
      if v.rootKey.None? then (v, Failed)
      else
        (match RekeyRows(prim, profileId, rows, oldRootKey, v.rootKey.value, nonces)
         case Some(rows') => (ResetAutoLock(v, now), Rekeyed(rows'))
         case None => (v, Failed))
    case Fire(now, h) =>
      if h in v.pending && v.pending[h] <= now then (Locked(v.(pending := v.pending - {h})), Done) else (v, Failed)
    case SetCallback => (v.(onAutoLock := true), Done)
    case Destroy => (Locked(v).(onAutoLock := false), Done)
  }

  function Initial(autoLockMs: int): View {
    View(None, None, autoLockMs, None, map[], 0, false, [])
  }

  /** The `keyVersion` getter. */
  function ReportedVersion(v: View): int {
    match v.meta
    case Some(m) => m.keyVersion
    case None => 0
  }

  ghost function Contents(buffers: seq<array<byte>>): seq<Bytes>
    reads set a | a in buffers
  {
    if buffers == [] then [] else Contents(buffers[..|buffers| - 1]) + [buffers[|buffers| - 1][..]]
  }

  lemma RetiredSnoc(buffers: seq<array<byte>>, b: array<byte>)
    ensures Contents(buffers + [b]) == Contents(buffers) + [b[..]]
  {
    assert (buffers + [b])[..|buffers|] == buffers;
  }

  // ---- the object ------------------------------------------------------------------

  class VaultState {
    const prim: Primitives
    const autoLockMs: int
    var rootKey: array?<byte>
    var meta: Option<VaultMeta>
    var autoLockTimer: Option<nat>
    var onAutoLock: bool
    var pending: map<nat, int>
    var nextHandle: nat
    ghost var retired: seq<array<byte>>

    ghost predicate Valid()
      reads this
    {
      rootKey != null ==> rootKey !in retired
    }

    ghost function Retired(): seq<Bytes>
      reads this, set a | a in retired
    {
      Contents(retired)
    }

    ghost function State(): View
      reads this, rootKey, set a | a in retired
    {
      View(if rootKey == null then None else Some(rootKey[..]), meta, autoLockMs, autoLockTimer,
           pending, nextHandle, onAutoLock, Retired())
    }

    constructor (prim: Primitives, autoLockMs: int)
      ensures Valid() && State() == Initial(autoLockMs) && this.prim == prim
    {
      this.prim := prim;
      this.autoLockMs := autoLockMs;
      rootKey, meta, autoLockTimer, onAutoLock := null, None, None, false;
      pending, nextHandle, retired := map[], 0, [];
    }

    method ClearTimer()
      requires Valid()
      modifies this`autoLockTimer, this`pending
      ensures Valid() && State() == ClearAutoLock(old(State()))
    {
      if autoLockTimer.Some? {
        pending := pending - {autoLockTimer.value};
        autoLockTimer := None;
      }
    }

    method ResetTimer(now: int)
      requires Valid()
      modifies this`autoLockTimer, this`pending, this`nextHandle
      ensures Valid() && State() == ResetAutoLock(old(State()), now)
    {
      ClearTimer();
      if autoLockMs > 0 {
        pending := pending[nextHandle := now + autoLockMs];
        autoLockTimer := Some(nextHandle);
        nextHandle := nextHandle + 1;
      }
    }

    /** The new key replaces the old reference; the old buffer is left as it was. */
    method Hold(root: Bytes, meta: VaultMeta)
      requires Valid()
      modifies this`rootKey, this`meta, this`retired
      ensures Valid() && State() == Unlocked(old(State()), root, meta)
    {
      var key := new byte[|root|];
      forall i | 0 <= i < |root| {
        key[i] := root[i];
      }
      assert key[..] == root;
      assert Retired() == old(Retired());
      if rootKey != null {
        retired := retired + [rootKey];
        RetiredSnoc(old(retired), rootKey);
        assert rootKey[..] == old(rootKey[..]);
      }
      rootKey := key;
      this.meta := Some(meta);
    }

    method UnlockWith(now: int, password: string, meta: VaultMeta) returns (reply: Reply)
      requires Valid()
      modifies this
      ensures Valid() && (State(), reply) == Step(prim, old(State()), Unlock(now, password, meta))
    {
      hide Contents, OpenText, ResetAutoLock, Unlocked, Base64.Decoded;
      var salt := Base64.FromBase64(meta.kdfSalt);
      if salt == None {
        return Failed;
      }
      var kek := prim.derive(password, salt.value, meta.kdfParams);
      var root := UnwrapRootKey(prim, meta.wrappedRootKey, kek, RootMeta(meta));
      if root == None {
        return Failed;
      }
      Hold(root.value, meta);
      ResetTimer(now);
      reply := Done;
    }

    method LockNow()
      requires Valid()
      modifies this, rootKey
      ensures Valid() && State() == Locked(old(State()))
      ensures old(rootKey) != null ==> old(rootKey)[..] == Zeros(old(rootKey.Length))
    {
      if rootKey != null {
        ZeroKey(rootKey);
        RetiredSnoc(retired, rootKey);
        retired := retired + [rootKey];
        rootKey := null;
      }
      ClearTimer();
    }

    method ChangePasswordTo(now: int, oldPassword: string, newPassword: string, meta: VaultMeta, newSalt: Bytes,
                            nonce: Bytes)
      returns (reply: Reply)
      requires Valid() && |nonce| == NONCE_LEN
      modifies this
      ensures Valid() && (State(), reply)
           == Step(prim, old(State()), ChangePassword(now, oldPassword, newPassword, meta, newSalt, nonce))
    {
      hide Contents, SealText, OpenText, ResetAutoLock, Base64.UrlSafe, Base64.Decoded;
      if rootKey == null {
        return Failed;
      }
      var oldSalt := Base64.FromBase64(meta.kdfSalt);
      if oldSalt == None {
        return Failed;
      }
      var oldKek := prim.derive(oldPassword, oldSalt.value, meta.kdfParams);
      var verified := UnwrapRootKey(prim, meta.wrappedRootKey, oldKek, RootMeta(meta));
      if verified == None {
        return Failed;
      }
      var newKek := prim.derive(newPassword, newSalt, meta.kdfParams);
      var wrapped := Envelope.Seal(prim, newKek, nonce, Aad.ZkRootWrap(meta.id, meta.keyVersion), rootKey[..]);
      ResetTimer(now);
      var salt := Base64.ToBase64(newSalt);
      reply := NewPassword(wrapped, salt, meta.kdfParams);
    }

    method EncryptPayload(now: int, plaintext: Bytes, meta: ZkItemMeta, dek: array<byte>, contentNonce: Bytes,
                          keyNonce: Bytes)
      returns (reply: Reply)
      requires Valid() && dek != rootKey && dek !in retired
      requires |contentNonce| == NONCE_LEN && |keyNonce| == NONCE_LEN
      modifies this, dek
      ensures Valid() && (State(), reply)
           == Step(prim, old(State()), Encrypt(now, plaintext, meta, old(dek[..]), contentNonce, keyNonce))
    {
      hide Contents, EncryptedWith, ResetAutoLock;
      if rootKey == null {
        return Failed;
      }
      var item := Items.EncryptItem(prim, plaintext, rootKey[..], meta, dek, contentNonce, keyNonce);
      assert State() == old(State());
      ResetTimer(now);
      reply := Encrypted(item);
    }

    method DecryptPayload(now: int, item: EncryptedItem, meta: ZkItemMeta) returns (reply: Reply)
      requires Valid()
      modifies this
      ensures Valid() && (State(), reply) == Step(prim, old(State()), Decrypt(now, item, meta))
    {
      hide Contents, DecryptItem, ResetAutoLock;
      if rootKey == null {
        return Failed;
      }
      var bytes := DecryptItem(prim, item, rootKey[..], meta);
      if bytes == None || !prim.parses(bytes.value) {
        return Failed;
      }
      ResetTimer(now);
      reply := Payload(bytes.value);
    }

    method RekeyItems(now: int, rows: seq<Row>, oldRootKey: Bytes, profileId: Bytes,
                      nonces: seq<Bytes>)
      returns (reply: Reply)
      requires Valid() && |nonces| == |rows|
      modifies this
      ensures Valid() && (State(), reply) == Step(prim, old(State()), Rekey(now, rows, oldRootKey, profileId, nonces))
    {
      hide Contents, RekeyRows, ResetAutoLock;
      if rootKey == null {
        return Failed;
      }
      var results := RekeyRows(prim, profileId, rows, oldRootKey, rootKey[..], nonces);
      if results == None {
        return Failed;
      }
      ResetTimer(now);
      reply := Rekeyed(results.value);
    }

    /** The event loop runs the timer callback. */
    method TimerFires(now: int, handle: nat) returns (called: bool)
      requires Valid() && handle in pending && pending[handle] <= now
      modifies this, rootKey
      ensures Valid() && State() == Step(prim, old(State()), Fire(now, handle)).0
      ensures called == old(onAutoLock)
    {
      pending := pending - {handle};
      assert Retired() == old(Retired());
      LockNow();
      called := onAutoLock;
    }

    method SetAutoLockCallback()
      requires Valid()
      modifies this`onAutoLock
      ensures Valid() && State() == Step(prim, old(State()), SetCallback).0
    {
      onAutoLock := true;
    }

    method DestroyVault()
      requires Valid()
      modifies this, rootKey
      ensures Valid() && State() == Step(prim, old(State()), Destroy).0
    {
      LockNow();
      onAutoLock := false;
    }

    method KeyVersion() returns (version: int)
      ensures version == ReportedVersion(State())
    {
      version := if meta.Some? then meta.value.keyVersion else 0;
    }
  }

}
