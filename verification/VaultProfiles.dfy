/**
 Several profiles and one vault: which root key each profile's record opens to after any
 sequence of unlocks, password changes and other calls, for whatever profiles they name.
 */
module VaultProfiles {
  import opened Basics
  import opened Primitives
  import opened Envelope
  import opened Vault
  import Items
  import VaultRuns

  /** The server's record, its newest password, and the root key it was last wrapped for. */
  datatype Profile = Profile(record: VaultMeta, password: string, key: Bytes)

  datatype Fleet = Fleet(vault: View, profiles: map<Bytes, Profile>)

  datatype Action =
    | DoUnlock(profile: Bytes, now: int, password: string)
    | DoChange(profile: Bytes, now: int, oldPassword: string, newPassword: string, newSalt: Bytes, nonce: Bytes)
    | DoOther(event: Event)

  ghost predicate WellFormed(a: Action) {
    match a
    case DoUnlock(_, _, _) => true
    case DoChange(_, _, _, _, _, nonce) => |nonce| == NONCE_LEN
    case DoOther(e) => WellFormedEvent(e) && !e.Unlock? && !e.ChangePassword?
  }

  ghost predicate WellFormedRun(actions: seq<Action>) {
    forall i :: 0 <= i < |actions| ==> WellFormed(actions[i])
  }

  function ChangeOf(s: Fleet, a: Action): Event
    requires a.DoChange? && a.profile in s.profiles
  {
    ChangePassword(a.now, a.oldPassword, a.newPassword, s.profiles[a.profile].record, a.newSalt, a.nonce)
  }

  ghost function Act(prim: Primitives, s: Fleet, a: Action): Fleet
    requires WellFormed(a)
  {
    match a
    case DoUnlock(p, now, password) =>
      if p in s.profiles then s.(vault := Step(prim, s.vault, Unlock(now, password, s.profiles[p].record)).0) else s
    case DoChange(p, now, old', new', salt, nonce) =>
      if p !in s.profiles then s
      else
        var (v, reply) := Step(prim, s.vault, ChangeOf(s, a));
        if reply.NewPassword? && s.vault.rootKey.Some? then
          Fleet(v, s.profiles[p := Profile(VaultRuns.Updated(s.profiles[p].record, reply), new',
                                           s.vault.rootKey.value)])
        else s.(vault := v)
    case DoOther(e) => s.(vault := Step(prim, s.vault, e).0)
  }

  ghost function Run(prim: Primitives, s: Fleet, actions: seq<Action>): Fleet
    requires WellFormedRun(actions)
    decreases |actions|
  {
    if actions == [] then s else
      assert WellFormed(actions[|actions| - 1]);
      Act(prim, Run(prim, s, actions[..|actions| - 1]), actions[|actions| - 1])
  }

  /** Each record opens under its newest password, and no other, to its key. */
  ghost predicate Sound(prim: Primitives, s: Fleet) {
    forall p :: p in s.profiles ==> SoundProfile(prim, p, s.profiles[p])
  }

  ghost predicate SoundProfile(prim: Primitives, id: Bytes, p: Profile) {
    && p.record.id == id
    && forall w :: OpenRecord(prim, w, p.record) == if w == p.password then Some(p.key) else None
  }

  /** A profile whose record was made by wrapping its key is sound. */
  lemma NewProfileSound(prim: Primitives, root: Bytes, password: string, id: Bytes, keyVersion: int, salt: Bytes,
                        params: KdfParams, nonce: Bytes)
    requires prim.Ideal() && |nonce| == NONCE_LEN
    ensures SoundProfile(prim, id, Profile(VaultRuns.NewRecord(prim, root, password, id, keyVersion, salt, params,
                                                               nonce),
                                           password, root))
  {
    hide OpenRecord;
    forall w
      ensures OpenRecord(prim, w, VaultRuns.NewRecord(prim, root, password, id, keyVersion, salt, params, nonce))
           == if w == password then Some(root) else None
    {
      VaultRuns.NewRecordExact(prim, root, password, id, keyVersion, salt, params, nonce, w);
    }
  }

  /** A change of this profile's password that succeeds. */
  ghost predicate Changes(s: Fleet, a: Action, p: Bytes) {
    a.DoChange? && a.profile == p && p in s.profiles && s.vault.rootKey.Some? && a.oldPassword == s.profiles[p].password
  }

  lemma ActSound(prim: Primitives, s: Fleet, a: Action)
    requires prim.Ideal() && WellFormed(a) && Sound(prim, s)
    ensures var t := Act(prim, s, a);
            Sound(prim, t) && t.profiles.Keys == s.profiles.Keys
            && forall p :: p in s.profiles ==>
                 if Changes(s, a, p) then t.profiles[p].key == s.vault.rootKey.value
                 && t.profiles[p].password == a.newPassword
                 else t.profiles[p] == s.profiles[p]
  {
    hide OpenRecord, Items.DecryptItem, Items.RekeyRows, Items.EncryptedWith, Rewrapped;
    if a.DoChange? && a.profile in s.profiles {
      var p := s.profiles[a.profile];
      assert SoundProfile(prim, a.profile, p);
      var reply := Step(prim, s.vault, ChangeOf(s, a)).1;
      VaultRuns.ChangeExact(prim, s.vault, a.now, a.oldPassword, a.newPassword, p.record, a.newSalt, a.nonce,
                            a.newPassword);
      if reply.NewPassword? {
        forall w
          ensures OpenRecord(prim, w, VaultRuns.Updated(p.record, reply)) == if w == a.newPassword
            then s.vault.rootKey else None
        {
          VaultRuns.ChangeExact(prim, s.vault, a.now, a.oldPassword, a.newPassword, p.record, a.newSalt, a.nonce, w);
        }
      }
    }
  }

  /** The root key held when this profile's password was last changed with success, or the
      one its record started with. */
  ghost function LastWrapped(prim: Primitives, s: Fleet, actions: seq<Action>, p: Bytes): Bytes
    requires WellFormedRun(actions) && p in s.profiles
    decreases |actions|
  {
    if actions == [] then s.profiles[p].key
    else
      var n := |actions| - 1;
      var t := Run(prim, s, actions[..n]);
      if Changes(t, actions[n], p) && t.vault.rootKey.Some?
        then t.vault.rootKey.value else LastWrapped(prim, s, actions[..n], p)
  }

  /** After any run each profile's record opens, under its newest password and no other, to
      the root key that was held when that password was set. */
  lemma {:induction false} RecordsExact(prim: Primitives, s: Fleet, actions: seq<Action>)
    requires prim.Ideal() && Sound(prim, s) && WellFormedRun(actions)
    ensures var t := Run(prim, s, actions);
            Sound(prim, t) && t.profiles.Keys == s.profiles.Keys
            && forall p :: p in s.profiles ==> t.profiles[p].key == LastWrapped(prim, s, actions, p)
    decreases |actions|
  {
    hide Act, WellFormed, Sound, Changes;
    if actions != [] {
      var n := |actions| - 1;
      assert WellFormed(actions[n]);
      RecordsExact(prim, s, actions[..n]);
      ActSound(prim, Run(prim, s, actions[..n]), actions[n]);
      forall p | p in s.profiles && Changes(Run(prim, s, actions[..n]), actions[n], p)
        ensures Run(prim, s, actions[..n]).vault.rootKey.Some?
      {
        ChangesHeld(Run(prim, s, actions[..n]), actions[n], p);
      }
    }
  }

  lemma ChangesHeld(s: Fleet, a: Action, p: Bytes)
    requires Changes(s, a, p)
    ensures s.vault.rootKey.Some?
  {}

  /** After the first i actions the profile's record has the root key it started with. */
  ghost predicate HasOwnKey(prim: Primitives, s: Fleet, actions: seq<Action>, p: Bytes, i: nat)
    requires WellFormedRun(actions) && p in s.profiles && i <= |actions|
  {
    var t := Run(prim, s, actions[..i]);
    p in t.profiles && t.profiles[p].key == s.profiles[p].key
  }

  /** If action i changes the profile's password, the vault holds that key. */
  ghost predicate ChangesUnderOwn(prim: Primitives, s: Fleet, actions: seq<Action>, p: Bytes, i: nat)
    requires WellFormedRun(actions) && p in s.profiles && i < |actions|
  {
    var t := Run(prim, s, actions[..i]);
    Changes(t, actions[i], p) ==> t.vault.rootKey == Some(s.profiles[p].key)
  }

  /** A profile's record keeps its root key throughout a run exactly when every successful
      change of its password is made while the vault holds that key. */
  lemma {:induction false} KeyKeptIff(prim: Primitives, s: Fleet, actions: seq<Action>, p: Bytes)
    requires prim.Ideal() && Sound(prim, s) && WellFormedRun(actions) && p in s.profiles
    ensures (forall i :: 0 <= i <= |actions| ==> HasOwnKey(prim, s, actions, p, i))
       <==> (forall i :: 0 <= i < |actions| ==> ChangesUnderOwn(prim, s, actions, p, i))
  {
    hide HasOwnKey, ChangesUnderOwn, Sound, WellFormed;
    if forall i :: 0 <= i <= |actions| ==> HasOwnKey(prim, s, actions, p, i) {
      forall i | 0 <= i < |actions|
        ensures ChangesUnderOwn(prim, s, actions, p, i)
      {
        assert HasOwnKey(prim, s, actions, p, i) && HasOwnKey(prim, s, actions, p, i + 1);
        KeyStep(prim, s, actions, p, i);
      }
    }
    if forall i :: 0 <= i < |actions| ==> ChangesUnderOwn(prim, s, actions, p, i) {
      OwnAtStart(prim, s, actions, p);
      for i := 0 to |actions|
        invariant forall j :: 0 <= j <= i ==> HasOwnKey(prim, s, actions, p, j)
      {
        assert ChangesUnderOwn(prim, s, actions, p, i);
        KeyStep(prim, s, actions, p, i);
      }
    }
  }

  lemma OwnAtStart(prim: Primitives, s: Fleet, actions: seq<Action>, p: Bytes)
    requires WellFormedRun(actions) && p in s.profiles
    ensures HasOwnKey(prim, s, actions, p, 0)
  {
    assert actions[..0] == [];
  }

  lemma KeyStep(prim: Primitives, s: Fleet, actions: seq<Action>, p: Bytes, i: nat)
    requires prim.Ideal() && Sound(prim, s) && WellFormedRun(actions) && p in s.profiles && i < |actions|
    requires HasOwnKey(prim, s, actions, p, i)
    ensures HasOwnKey(prim, s, actions, p, i + 1) <==> ChangesUnderOwn(prim, s, actions, p, i)
  {
    hide Act, WellFormed, Sound;
    assert actions[..i + 1][..i] == actions[..i];
    assert WellFormed(actions[i]);
    RecordsExact(prim, s, actions[..i]);
    ActSound(prim, Run(prim, s, actions[..i]), actions[i]);
  }

  // ---- one discipline that suffices ----------------------------------------------------

  /** The password is changed only of the profile the vault was unlocked with. */
  ghost predicate OwnProfile(s: Fleet, a: Action) {
    a.DoChange? && s.vault.rootKey.Some? ==> s.vault.meta.Some? && s.vault.meta.value.id == a.profile
  }

  /** What is held is the key that profile started with. */
  ghost predicate HoldsOwn(s: Fleet, t: Fleet) {
    && t.profiles.Keys == s.profiles.Keys
    && (forall p :: p in s.profiles ==> t.profiles[p].key == s.profiles[p].key)
    && (t.vault.rootKey.Some? ==>
          t.vault.meta.Some? && t.vault.meta.value.id in s.profiles
          && t.vault.rootKey.value == s.profiles[t.vault.meta.value.id].key)
  }

  lemma ActHoldsOwn(prim: Primitives, s: Fleet, t: Fleet, a: Action)
    requires prim.Ideal() && WellFormed(a) && Sound(prim, t) && HoldsOwn(s, t) && OwnProfile(t, a)
    ensures HoldsOwn(s, Act(prim, t, a))
  {
    hide OpenRecord, Items.DecryptItem, Items.RekeyRows, Items.EncryptedWith, Rewrapped;
    ActSound(prim, t, a);
    match a
    case DoUnlock(p, now, password) =>
      if p in t.profiles {
        assert SoundProfile(prim, p, t.profiles[p]);
      }
    case DoChange(p, now, old', new', salt, nonce) =>
      if p in t.profiles {
        VaultRuns.ChangeExact(prim, t.vault, now, old', new', t.profiles[p].record, salt, nonce, new');
      }
    case DoOther(e) => VaultRuns.OtherKeepsKey(prim, t.vault, e);
  }

  /** If it is, no run loses any profile's root key, whatever else is called: every record
      opens under its newest password to the key it started with. */
  lemma {:induction false} OwnProfilesKeepKeys(prim: Primitives, s: Fleet, actions: seq<Action>)
    requires prim.Ideal() && Sound(prim, s) && s.vault.rootKey.None? && WellFormedRun(actions)
    requires forall i :: 0 <= i < |actions| ==> OwnProfile(Run(prim, s, actions[..i]), actions[i])
    ensures Sound(prim, Run(prim, s, actions)) && HoldsOwn(s, Run(prim, s, actions))
    decreases |actions|
  {
    hide Act, WellFormed, OwnProfile, Sound, HoldsOwn;
    RecordsExact(prim, s, actions);
    if actions == [] {
      StartsOwn(s);
    } else {
      var n := |actions| - 1;
      assert WellFormed(actions[n]);
      assert forall i :: 0 <= i < n ==> actions[..n][i] == actions[i] && actions[..n][..i] == actions[..i];
      OwnProfilesKeepKeys(prim, s, actions[..n]);
      ActHoldsOwn(prim, s, Run(prim, s, actions[..n]), actions[n]);
    }
  }

  lemma StartsOwn(s: Fleet)
    requires s.vault.rootKey.None?
    ensures HoldsOwn(s, s)
  {}
}
