/** What holds over every run of the vault, and over every run of password changes. */
module VaultRuns {
  import opened Basics
  import opened Primitives
  import opened Aad
  import opened Envelope
  import opened Keys
  import opened Items
  import opened Vault
  import Base64

  // ---- what each call answers --------------------------------------------------------

  /** Without a key every operation that needs one fails and changes nothing. */
  lemma LockedRefuses(prim: Primitives, v: View, e: Event)
    requires WellFormedEvent(e) && v.rootKey.None?
    requires e.ChangePassword? || e.Encrypt? || e.Decrypt? || e.Rekey?
    ensures Step(prim, v, e) == (v, Failed)
  {}

  /** Locking, destroying, and the auto-lock timer when it is due leave the vault without a
      key and without its timer; the buffer that held the key is all zeros; what else was
      scheduled, and the metadata, stay. Only destroying forgets the callback. */
  lemma LocksExact(prim: Primitives, v: View, e: Event)
    requires e.Lock? || e.Destroy? || (e.Fire? && e.handle in v.pending && v.pending[e.handle] <= e.now)
    ensures var (v', reply) := Step(prim, v, e);
            v'.rootKey.None? && v'.timer.None? && v'.meta == v.meta && reply == Done
            && v'.onAutoLock == (v.onAutoLock && !e.Destroy?)
            && |v'.retired| == |v.retired| + (if v.rootKey.Some? then 1 else 0) && v.retired <= v'.retired
            && (v.rootKey.Some? ==> |v'.retired[|v.retired|]| == |v.rootKey.value|
                                    && forall i :: 0 <= i < |v.rootKey.value| ==> v'.retired[|v.retired|][i] == 0)
            && (v.timer.Some? ==> v.timer.value !in v'.pending)
            && forall h :: h in v.pending && v.timer != Some(h) && !(e.Fire? && e.handle == h) ==> h in v'.pending
  {}

  /** What encryption answers decrypts to the plaintext under the key the vault holds, for
      the profile, item and version given, and under nothing else. */
  lemma EncryptReplyExact(prim: Primitives, v: View, now: int, plaintext: Bytes, meta: ZkItemMeta, dek: Bytes,
                          contentNonce: Bytes, keyNonce: Bytes, root: Bytes, meta': ZkItemMeta)
    requires prim.Ideal() && v.rootKey.Some? && |contentNonce| == NONCE_LEN && |keyNonce| == NONCE_LEN
    requires WellFormed(KeyId(meta)) && WellFormed(KeyId(meta'))
    ensures var reply := Step(prim, v, Encrypt(now, plaintext, meta, dek, contentNonce, keyNonce)).1;
            reply.Encrypted?
            && DecryptItem(prim, reply.item, root, meta')
               == if v.rootKey == Some(root) && meta'.profileId == meta.profileId && meta'.itemId == meta.itemId
                     && Version(meta') % 0x1_0000_0000 == Version(meta) % 0x1_0000_0000
                  then Some(plaintext) else None
  {
    hide SealText, OpenText, DecryptItem;
    DecryptExact(prim, v.rootKey.value, meta, dek, keyNonce, meta, dek, contentNonce, plaintext, root, meta');
  }

  /** And decrypting it with the vault that encrypted it gives the plaintext back. */
  lemma EncryptThenDecrypt(prim: Primitives, v: View, now: int, later: int, plaintext: Bytes, meta: ZkItemMeta,
                           dek: Bytes, contentNonce: Bytes, keyNonce: Bytes)
    requires prim.Ideal() && v.rootKey.Some? && |contentNonce| == NONCE_LEN && |keyNonce| == NONCE_LEN
    requires WellFormed(KeyId(meta))
    ensures var (v', reply) := Step(prim, v, Encrypt(now, plaintext, meta, dek, contentNonce, keyNonce));
            reply.Encrypted?
            && Step(prim, v', Decrypt(later, reply.item, meta)).1
               == if prim.parses(plaintext) then Payload(plaintext) else Failed
  {
    hide DecryptItem, EncryptedWith, ResetAutoLock;
    ResetKeeps(v, now);
    EncryptReplyExact(prim, v, now, plaintext, meta, dek, contentNonce, keyNonce, v.rootKey.value, meta);
  }

  /** Rotation answers exactly when the old root key opens every row's item key; the rows it
      answers with say, under the key the vault holds, what the given ones said under the
      old one. */
  lemma RekeyReplyExact(prim: Primitives, v: View, now: int, rows: seq<Row>, old': Bytes, profileId: Bytes,
                        nonces: seq<Bytes>)
    requires prim.Ideal() && v.rootKey.Some? && ValidRotation(Rotation(v.rootKey.value, nonces), |rows|)
    ensures var reply := Step(prim, v, Rekey(now, rows, old', profileId, nonces)).1;
            (reply.Rekeyed? <==> Opens(prim, profileId, rows, old'))
            && (reply.Rekeyed? ==> SameMeaning(prim, profileId, rows, old', reply.rows, v.rootKey.value))
  {
    hide RekeyRows, Opens, SameMeaning;
    RekeyRowsPreserves(prim, profileId, rows, old', Rotation(v.rootKey.value, nonces));
  }

  /** What a password change answers with: the held key after the nonce, sealed for this
      profile and key version under the key derived from the new password, the new salt and
      the record's own parameters, with that salt and those parameters. */
  lemma ChangeReplyForm(prim: Primitives, v: View, now: int, old': string, new': string, meta: VaultMeta, salt: Bytes,
                        nonce: Bytes)
    requires |nonce| == NONCE_LEN && v.rootKey.Some? && OpenRecord(prim, old', meta).Some?
    ensures var reply := Step(prim, v, ChangePassword(now, old', new', meta, salt, nonce)).1;
            reply.NewPassword? && reply.kdfParams == meta.kdfParams && Base64.Decoded(reply.kdfSalt) == Some(salt)
            && Base64.Decoded(reply.wrappedRootKey)
               == Some(nonce + prim.seal(prim.derive(new', salt, meta.kdfParams), nonce,
                                         Build(ZkRootWrap(meta.id, meta.keyVersion)), v.rootKey.value))
  {
    hide OpenRecord, Base64.UrlSafe, Base64.Decoded, Build;
    Base64.RoundTrip(salt);
    WrappedForm(prim, v.rootKey.value, prim.derive(new', salt, meta.kdfParams), meta.id, meta.keyVersion, nonce);
  }

  // ---- the auto-lock callback --------------------------------------------------------

  /** Whether a callback was set since the vault was last destroyed. */
  function CallbackSet(es: seq<Event>): bool {
    if es == [] then false
    else
      match es[|es| - 1]
      case SetCallback => true
      case Destroy => false
      case _ => CallbackSet(es[..|es| - 1])
  }

  lemma StepCallback(prim: Primitives, v: View, e: Event)
    requires WellFormedEvent(e)
    ensures Step(prim, v, e).0.onAutoLock == if e.SetCallback? then true else if e.Destroy? then false else v.onAutoLock
  {
    hide OpenRecord, DecryptItem, RekeyRows, EncryptedWith, Rewrapped;
  }

  /** The callback that the timer calls is there exactly when one was set since the vault
      was last destroyed; locking and unlocking keep it. */
  lemma {:induction false} CallbackExact(prim: Primitives, autoLockMs: int, es: seq<Event>)
    requires WellFormedRun(es)
    ensures Run(prim, Initial(autoLockMs), es).onAutoLock == CallbackSet(es)
    decreases |es|
  {
    hide Step, WellFormedEvent;
    if es != [] {
      var n := |es| - 1;
      CallbackExact(prim, autoLockMs, es[..n]);
      assert WellFormedEvent(es[n]);
      StepCallback(prim, Run(prim, Initial(autoLockMs), es[..n]), es[n]);
    }
  }

  // ---- the timer -------------------------------------------------------------------

  ghost predicate WellFormedRun(es: seq<Event>) {
    forall i :: 0 <= i < |es| ==> WellFormedEvent(es[i])
  }

  ghost function Run(prim: Primitives, v: View, es: seq<Event>): View
    requires WellFormedRun(es)
    decreases |es|
  {
    if es == [] then v else
      assert WellFormedEvent(es[|es| - 1]);
      Step(prim, Run(prim, v, es[..|es| - 1]), es[|es| - 1]).0
  }

  /** The operations that push the deadline: all that use the key, and unlocking. */
  function Touches(e: Event): Option<int> {
    match e
    case Unlock(now, _, _) => Some(now)
    case ChangePassword(now, _, _, _, _, _) => Some(now)
    case Encrypt(now, _, _, _, _, _) => Some(now)
    case Decrypt(now, _, _) => Some(now)
    case Rekey(now, _, _, _, _) => Some(now)
    case _ => None
  }

  /** When the last such operation that did not fail took place. */
  ghost function LastSuccess(prim: Primitives, v: View, es: seq<Event>): Option<int>
    requires WellFormedRun(es)
    decreases |es|
  {
    if es == [] then None
    else
      var n := |es| - 1;
      assert WellFormedEvent(es[n]);
      if Touches(es[n]).Some? && Step(prim, Run(prim, v, es[..n]), es[n]).1 != Failed then Touches(es[n])
      else LastSuccess(prim, v, es[..n])
  }

  /** What every reachable state satisfies, given the last success. */
  ghost predicate TimerInvariant(v: View, last: Option<int>) {
    && (v.rootKey.None? || v.autoLockMs <= 0 ==> v.timer == None && v.pending == map[])
    && (v.rootKey.Some? ==> last.Some?)
    && (v.rootKey.Some? && v.autoLockMs > 0 ==>
          v.timer.Some? && v.timer.value < v.nextHandle && v.pending == map[v.timer.value := last.value + v.autoLockMs])
  }

  lemma ResetTimerInvariant(v: View, now: int, last: Option<int>)
    requires TimerInvariant(v, last) || (v.timer == None && v.pending == map[])
    requires v.rootKey.Some?
    ensures TimerInvariant(ResetAutoLock(v, now), Some(now))
  {}

  lemma LockedTimerInvariant(v: View, last: Option<int>)
    requires TimerInvariant(v, last)
    ensures TimerInvariant(Locked(v), last) && Locked(v).rootKey.None?
  {}

  lemma StepTimer(prim: Primitives, v: View, e: Event, last: Option<int>)
    requires WellFormedEvent(e) && TimerInvariant(v, last)
    ensures var (v', reply) := Step(prim, v, e);
            TimerInvariant(v', if Touches(e).Some? && reply != Failed then Touches(e) else last)
            && (reply == Failed ==> v' == v)
            && v'.autoLockMs == v.autoLockMs
  {
    hide OpenRecord, DecryptItem, RekeyRows, EncryptedWith;
    match e
    case Unlock(now, password, meta) =>
      var r := OpenRecord(prim, password, meta);
      if r.Some? {
        var u := Unlocked(v, r.value, meta);
        assert TimerInvariant(ResetAutoLock(u, now), Some(now));
      }
    case Fire(now, h) =>
      if h in v.pending && v.pending[h] <= now {
        assert v.pending - {h} == map[];
      }
    case Lock => LockedTimerInvariant(v, last);
    case Destroy => LockedTimerInvariant(v, last);
    case SetCallback =>
    case _ =>
      if v.rootKey.Some? && Step(prim, v, e).1 != Failed {
        ResetTimerInvariant(v, Touches(e).value, last);
      }
  }

  /** In every reachable state: a locked vault has no armed timer; an unlocked one with
      a positive auto-lock period has exactly one, due that period after the last
      operation that succeeded, so that failed operations never move the deadline. */
  lemma {:induction false} TimerExact(prim: Primitives, autoLockMs: int, es: seq<Event>)
    requires WellFormedRun(es)
    ensures TimerInvariant(Run(prim, Initial(autoLockMs), es), LastSuccess(prim, Initial(autoLockMs), es))
    ensures Run(prim, Initial(autoLockMs), es).autoLockMs == autoLockMs
    decreases |es|
  {
    hide Step, WellFormedEvent;
    if es != [] {
      var n := |es| - 1;
      TimerExact(prim, autoLockMs, es[..n]);
      assert WellFormedEvent(es[n]);
      StepTimer(prim, Run(prim, Initial(autoLockMs), es[..n]), es[n], LastSuccess(prim, Initial(autoLockMs), es[..n]));
    } else {
      assert Run(prim, Initial(autoLockMs), es) == Initial(autoLockMs);
    }
  }

  // ---- zeroed keys -----------------------------------------------------------------

  ghost predicate AllZero(b: Bytes) {
    b == Zeros(|b|)
  }

  ghost predicate Zeroed(v: View) {
    forall i :: 0 <= i < |v.retired| ==> AllZero(v.retired[i])
  }

  /** An unlock that succeeds although the vault already holds a (non-zero) key. */
  ghost predicate Overwrites(prim: Primitives, v: View, e: Event) {
    e.Unlock? && OpenRecord(prim, e.password, e.meta).Some? && v.rootKey.Some? && !AllZero(v.rootKey.value)
  }

  ghost predicate EverOverwrites(prim: Primitives, v: View, es: seq<Event>)
    requires WellFormedRun(es)
    decreases |es|
  {
    es != [] && (EverOverwrites(prim, v, es[..|es| - 1])
                 || Overwrites(prim, Run(prim, v, es[..|es| - 1]), es[|es| - 1]))
  }

  lemma StepZeroed(prim: Primitives, v: View, e: Event)
    requires WellFormedEvent(e)
    ensures Zeroed(Step(prim, v, e).0) <==> Zeroed(v) && !Overwrites(prim, v, e)
  {
    hide OpenRecord, DecryptItem, RekeyRows, Rewrapped, EncryptedWith;
    var r, r' := v.retired, Step(prim, v, e).0.retired;
    assert r' == r || (v.rootKey.Some? && (r' == r + [v.rootKey.value] || r' == r + [Zeros(|v.rootKey.value|)]));
    if v.rootKey.Some? {
      var k := v.rootKey.value;
      assert AllZero(Zeros(|k|));
      ZeroedSnoc(v, Step(prim, v, e).0, k);
      ZeroedSnoc(v, Step(prim, v, e).0, Zeros(|k|));
    }
  }

  lemma ZeroedSnoc(v: View, w: View, k: Bytes)
    ensures w.retired == v.retired + [k] ==> (Zeroed(w) <==> Zeroed(v) && AllZero(k))
  {
    if w.retired == v.retired + [k] {
      assert w.retired[|v.retired|] == k;
      assert forall i :: 0 <= i < |v.retired| ==> w.retired[i] == v.retired[i];
    }
  }

  /** Every buffer that ever held the root key and no longer does is all zeros exactly
      when no unlock succeeded on a vault that was holding a key. In particular it is
      so when unlock is only called while the vault is locked. */
  lemma {:induction false} FormerKeysZeroed(prim: Primitives, autoLockMs: int, es: seq<Event>)
    requires WellFormedRun(es)
    ensures Zeroed(Run(prim, Initial(autoLockMs), es)) <==> !EverOverwrites(prim, Initial(autoLockMs), es)
    decreases |es|
  {
    hide Step, WellFormedEvent, Overwrites;
    if es != [] {
      var n := |es| - 1;
      FormerKeysZeroed(prim, autoLockMs, es[..n]);
      assert WellFormedEvent(es[n]);
      StepZeroed(prim, Run(prim, Initial(autoLockMs), es[..n]), es[n]);
    }
  }

  // ---- the reported key version ------------------------------------------------------

  /** The metadata of the last unlock that succeeded. */
  ghost function LastUnlock(prim: Primitives, es: seq<Event>): Option<VaultMeta> {
    if es == [] then None
    else
      var e := es[|es| - 1];
      if e.Unlock? && OpenRecord(prim, e.password, e.meta).Some? then Some(e.meta) else LastUnlock(prim, es[..|es| - 1])
  }

  lemma StepMeta(prim: Primitives, v: View, e: Event)
    requires WellFormedEvent(e)
    ensures Step(prim, v, e).0.meta
         == if e.Unlock? && OpenRecord(prim, e.password, e.meta).Some? then Some(e.meta) else v.meta
  {
    hide OpenRecord, DecryptItem, RekeyRows, EncryptedWith, Rewrapped;
  }

  /** In every run the reported key version is that of the last unlock that succeeded,
      whatever was locked, changed or destroyed since, and 0 before the first. */
  lemma {:induction false} KeyVersionExact(prim: Primitives, autoLockMs: int, es: seq<Event>)
    requires WellFormedRun(es)
    ensures ReportedVersion(Run(prim, Initial(autoLockMs), es))
         == match LastUnlock(prim, es) case Some(m) => m.keyVersion case None => 0
  {
    MetaOfLastUnlock(prim, autoLockMs, es);
  }

  lemma {:induction false} MetaOfLastUnlock(prim: Primitives, autoLockMs: int, es: seq<Event>)
    requires WellFormedRun(es)
    ensures Run(prim, Initial(autoLockMs), es).meta == LastUnlock(prim, es)
    decreases |es|
  {
    hide Step, WellFormedEvent, OpenRecord;
    if es != [] {
      var n := |es| - 1;
      MetaOfLastUnlock(prim, autoLockMs, es[..n]);
      assert WellFormedEvent(es[n]);
      StepMeta(prim, Run(prim, Initial(autoLockMs), es[..n]), es[n]);
    }
  }

  // ---- password changes --------------------------------------------------------------

  lemma ResetKeeps(v: View, now: int)
    ensures ResetAutoLock(v, now).rootKey == v.rootKey && ResetAutoLock(v, now).meta == v.meta
  {}

  /** Changing the password with some metadata: it succeeds exactly when the vault is
      unlocked and the old password opens that metadata; the new record then opens, to
      the key the vault holds, under the new password and no other. */
  lemma ChangeExact(prim: Primitives, v: View, now: int, old': string, new': string, meta: VaultMeta, salt: Bytes,
                    nonce: Bytes, any: string)
    requires prim.Ideal() && |nonce| == NONCE_LEN
    ensures var (v', reply) := Step(prim, v, ChangePassword(now, old', new', meta, salt, nonce));
            (reply.NewPassword? <==> v.rootKey.Some? && OpenRecord(prim, old', meta).Some?)
            && v'.rootKey == v.rootKey && v'.meta == v.meta
            && (reply.NewPassword? ==>
                  OpenRecord(prim, any, Updated(meta, reply)) == if any == new' then v.rootKey else None)
  {
    hide Base64.UrlSafe, Base64.Decoded, ResetAutoLock;
    ResetKeeps(v, now);
    var (v', reply) := Step(prim, v, ChangePassword(now, old', new', meta, salt, nonce));
    if reply.NewPassword? {
      Base64.RoundTrip(salt);
      var id := ZkRootWrap(meta.id, meta.keyVersion);
      OpenSealed(prim, prim.derive(new', salt, meta.kdfParams), nonce, id, v.rootKey.value,
                 prim.derive(any, salt, meta.kdfParams), id);
    }
  }

  /** The record after the server stores the reply; the key version is not advanced. */
  function Updated(meta: VaultMeta, reply: Reply): VaultMeta
    requires reply.NewPassword?
  {
    meta.(wrappedRootKey := reply.wrappedRootKey, kdfSalt := reply.kdfSalt, kdfParams := reply.kdfParams)
  }

  /** The old password is checked against the supplied metadata, but the held key is
      what gets wrapped: the record keeps its root key exactly when the held key is
      the key of that record. */
  lemma ChangeKeepsRootKeyIff(prim: Primitives, v: View, now: int, old': string, new': string, meta: VaultMeta,
                              salt: Bytes, nonce: Bytes)
    requires prim.Ideal() && |nonce| == NONCE_LEN
    ensures var (v', reply) := Step(prim, v, ChangePassword(now, old', new', meta, salt, nonce));
            reply.NewPassword? ==>
              (OpenRecord(prim, new', Updated(meta, reply)) == OpenRecord(prim, old', meta)
               <==> v.rootKey == OpenRecord(prim, old', meta))
  {
    ChangeExact(prim, v, now, old', new', meta, salt, nonce, new');
  }

  /** A record made by wrapping a root key under a password: that password opens it to the
      key, and no other opens it. */
  function NewRecord(prim: Primitives, root: Bytes, password: string, id: Bytes, keyVersion: int, salt: Bytes,
                     params: KdfParams, nonce: Bytes): VaultMeta
  {
    VaultMeta(id, WrapRootKey(prim, root, prim.derive(password, salt, params), RootWrapMeta(id, keyVersion), nonce),
              Base64.UrlSafe(salt), keyVersion, params)
  }

  lemma NewRecordExact(prim: Primitives, root: Bytes, password: string, id: Bytes, keyVersion: int, salt: Bytes,
                       params: KdfParams, nonce: Bytes, any: string)
    requires prim.Ideal() && |nonce| == NONCE_LEN
    ensures OpenRecord(prim, any, NewRecord(prim, root, password, id, keyVersion, salt, params, nonce))
         == if any == password then Some(root) else None
  {
    hide Base64.UrlSafe, Base64.Decoded;
    Base64.RoundTrip(salt);
    var aad := ZkRootWrap(id, keyVersion);
    OpenSealed(prim, prim.derive(password, salt, params), nonce, aad, root, prim.derive(any, salt, params), aad);
  }

  /** Changing the password of one record while another record's key is held: the record
      then opens to the other one's key, and its own root key is lost. */
  lemma OtherKeyWrapped(prim: Primitives, v: View, now: int, a: VaultMeta, pa: string, b: VaultMeta, pb: string,
                        new': string, salt: Bytes, nonce: Bytes)
    requires prim.Ideal() && |nonce| == NONCE_LEN
    requires OpenRecord(prim, pa, a).Some? && OpenRecord(prim, pb, b).Some?
    requires OpenRecord(prim, pa, a) != OpenRecord(prim, pb, b)
    ensures var u := Step(prim, v, Unlock(now, pb, b)).0;
            var reply := Step(prim, u, ChangePassword(now, pa, new', a, salt, nonce)).1;
            reply.NewPassword?
            && OpenRecord(prim, new', Updated(a, reply)) == OpenRecord(prim, pb, b)
            && forall w :: OpenRecord(prim, w, Updated(a, reply)) != OpenRecord(prim, pa, a)
  {
    hide OpenRecord;
    var u := Step(prim, v, Unlock(now, pb, b)).0;
    ResetKeeps(Unlocked(v, OpenRecord(prim, pb, b).value, b), now);
    ChangeExact(prim, u, now, pa, new', a, salt, nonce, new');
    forall w
      ensures OpenRecord(prim, w, Updated(a, Step(prim, u, ChangePassword(now, pa, new', a, salt, nonce)).1))
           == if w == new' then u.rootKey else None
    {
      ChangeExact(prim, u, now, pa, new', a, salt, nonce, w);
    }
  }

  /** One profile's session: calls that always use that profile's current record. */
  datatype Action =
    | DoUnlock(now: int, password: string)
    | DoChange(now: int, oldPassword: string, newPassword: string, newSalt: Bytes, nonce: Bytes)
    | DoOther(event: Event)

  /** The vault, the server's record of the profile, and the newest password. */
  datatype Session = Session(vault: View, record: VaultMeta, password: string)

  ghost predicate WellFormedAction(a: Action) {
    match a
    case DoUnlock(_, _) => true
    case DoChange(_, _, _, _, nonce) => |nonce| == NONCE_LEN
    case DoOther(e) => WellFormedEvent(e) && !e.Unlock? && !e.ChangePassword?
  }

  ghost function Act(prim: Primitives, s: Session, a: Action): Session
    requires WellFormedAction(a)
  {
    match a
    case DoUnlock(now, password) => s.(vault := Step(prim, s.vault, Unlock(now, password, s.record)).0)
    case DoChange(now, old', new', salt, nonce) =>
      var (v', reply) := Step(prim, s.vault, ChangePassword(now, old', new', s.record, salt, nonce));
      if reply.NewPassword? then Session(v', Updated(s.record, reply), new') else s.(vault := v')
    case DoOther(e) => s.(vault := Step(prim, s.vault, e).0)
  }

  ghost function ActAll(prim: Primitives, s: Session, actions: seq<Action>): Session
    requires forall i :: 0 <= i < |actions| ==> WellFormedAction(actions[i])
    decreases |actions|
  {
    if actions == [] then s else
      assert WellFormedAction(actions[0]);
      ActAll(prim, Act(prim, s, actions[0]), actions[1..])
  }

  /** The newest password, and only it, opens the record, to this root key; a vault that
      is unlocked holds that key and reports the record's key version. */
  ghost predicate Consistent(prim: Primitives, s: Session, root: Bytes) {
    && (forall w :: OpenRecord(prim, w, s.record) == if w == s.password then Some(root) else None)
    && (s.vault.rootKey.Some? ==>
          s.vault.rootKey.value == root && s.vault.meta.Some?
          && s.vault.meta.value.id == s.record.id && s.vault.meta.value.keyVersion == s.record.keyVersion)
  }

  /** A new record and a locked vault are such a state. */
  lemma NewRecordConsistent(prim: Primitives, vault: View, root: Bytes, password: string, id: Bytes, keyVersion: int,
                            salt: Bytes, params: KdfParams, nonce: Bytes)
    requires prim.Ideal() && |nonce| == NONCE_LEN && vault.rootKey.None?
    ensures Consistent(prim, Session(vault, NewRecord(prim, root, password, id, keyVersion, salt, params, nonce),
                                     password), root)
  {
    hide OpenRecord, NewRecord;
    forall w
      ensures OpenRecord(prim, w, NewRecord(prim, root, password, id, keyVersion, salt, params, nonce))
           == if w == password then Some(root) else None
    {
      NewRecordExact(prim, root, password, id, keyVersion, salt, params, nonce, w);
    }
  }

  lemma OtherKeepsKey(prim: Primitives, v: View, e: Event)
    requires WellFormedEvent(e) && !e.Unlock? && !e.ChangePassword?
    ensures Step(prim, v, e).0.meta == v.meta
    ensures Step(prim, v, e).0.rootKey == v.rootKey || Step(prim, v, e).0.rootKey == None
  {
    hide OpenRecord, DecryptItem, RekeyRows, EncryptedWith;
  }

  lemma ActConsistent(prim: Primitives, s: Session, a: Action, root: Bytes)
    requires prim.Ideal() && WellFormedAction(a) && Consistent(prim, s, root)
    ensures Consistent(prim, Act(prim, s, a), root)
    ensures Act(prim, s, a).record.id == s.record.id && Act(prim, s, a).record.keyVersion == s.record.keyVersion
    ensures a.DoChange? && s.vault.rootKey.Some? && a.oldPassword == s.password
         ==> Act(prim, s, a).password == a.newPassword
    ensures !(a.DoChange? && s.vault.rootKey.Some? && a.oldPassword == s.password)
            ==> Act(prim, s, a).password == s.password && Act(prim, s, a).record == s.record
  {
    hide OpenRecord, DecryptItem, RekeyRows, EncryptedWith, Rewrapped;
    match a
    case DoUnlock(now, password) =>
    case DoOther(e) => OtherKeepsKey(prim, s.vault, e);
    case DoChange(now, old', new', salt, nonce) =>
      ChangeExact(prim, s.vault, now, old', new', s.record, salt, nonce, new');
      var reply := Step(prim, s.vault, ChangePassword(now, old', new', s.record, salt, nonce)).1;
      if reply.NewPassword? {
        forall w
          ensures OpenRecord(prim, w, Updated(s.record, reply)) == if w == new' then s.vault.rootKey else None
        {
          ChangeExact(prim, s.vault, now, old', new', s.record, salt, nonce, w);
        }
      }
  }

  /** Any sequence of password changes, locks, unlocks and other calls that use the
      profile's own record preserves its root key: the newest password opens the record
      to the same key, every other password fails, and the key version stays. */
  lemma {:induction false} SessionPreservesRootKey(prim: Primitives, s: Session, actions: seq<Action>, root: Bytes)
    requires prim.Ideal() && Consistent(prim, s, root)
    requires forall i :: 0 <= i < |actions| ==> WellFormedAction(actions[i])
    ensures var t := ActAll(prim, s, actions);
            Consistent(prim, t, root) && t.record.id == s.record.id && t.record.keyVersion == s.record.keyVersion
    decreases |actions|
  {
    hide Act, WellFormedAction, Consistent;
    if actions != [] {
      assert WellFormedAction(actions[0]);
      ActConsistent(prim, s, actions[0], root);
      SessionPreservesRootKey(prim, Act(prim, s, actions[0]), actions[1..], root);
    }
  }

  /** So every item the root key decrypted still decrypts, to the same bytes, through
      the vault whenever it is unlocked after such a sequence. */
  lemma SessionPreservesItems(prim: Primitives, s: Session, actions: seq<Action>, root: Bytes, now: int,
                              item: EncryptedItem, meta: ZkItemMeta)
    requires prim.Ideal() && Consistent(prim, s, root)
    requires forall i :: 0 <= i < |actions| ==> WellFormedAction(actions[i])
    ensures var v := ActAll(prim, s, actions).vault;
            var stored := DecryptItem(prim, item, root, meta);
            v.rootKey.Some? ==>
              Step(prim, v, Decrypt(now, item, meta)).1
              == if stored.Some? && prim.parses(stored.value) then Payload(stored.value) else Failed
  {
    hide OpenRecord, DecryptItem, ActAll;
    SessionPreservesRootKey(prim, s, actions, root);
  }
}
