/**
 The daemon's `vault.unlock` call: it tests whether the vault is locked, awaits the
 profile's record, and only then unlocks. Each side of the await is one event.
 */
module UnlockRpc {
  import opened Basics
  import opened Primitives
  import opened Vault
  import Items
  import VaultRuns

  datatype Daemon = Daemon(
    vault: View,
    /** The calls that passed the test and await their record, with their passwords. */
    waiting: map<nat, string>,
    nextCall: nat)

  datatype RpcEvent =
    | UnlockRequested(password: string, profileId: Bytes)
    /** The record arrived; None when the server has none. `message` is the text of the
        exception if unlocking throws one. */
    | RecordFetched(call: nat, now: int, record: Option<VaultMeta>, message: string)
    /** Any other operation of the vault. */
    | Other(event: Event)

  datatype RpcReply =
    | InvalidParams
    | AlreadyUnlocked
    | Awaiting(call: nat)
    | NotFound
    | WrongPassword
    | InternalError
    | Unlocked(keyVersion: int)
    | NoReply

  /** `s.includes(t)`. */
  predicate Includes(s: string, t: string) {
    exists i :: 0 <= i <= |s| && t <= s[i..]
  }

  /** What the exception's text says. */
  function FailureOf(message: string): RpcReply {
    if Includes(message, "tag") || Includes(message, "decrypt") || Includes(message, "auth")
      then WrongPassword else InternalError
  }

  function Start(autoLockMs: int): Daemon {
    Daemon(Initial(autoLockMs), map[], 0)
  }

  ghost predicate WellFormed(e: RpcEvent) {
    e.Other? ==> WellFormedEvent(e.event) && !e.event.Unlock?
  }

  function Handle(prim: Primitives, d: Daemon, e: RpcEvent): (Daemon, RpcReply)
    requires WellFormed(e)
  {
    match e
    case UnlockRequested(password, profileId) =>
      if password == "" || profileId == [] then (d, InvalidParams)
      else if d.vault.rootKey.Some? then (d, AlreadyUnlocked)
      else (d.(waiting := d.waiting[d.nextCall := password], nextCall := d.nextCall + 1), Awaiting(d.nextCall))
    case RecordFetched(call, now, record, message) =>
      if call !in d.waiting then (d, NoReply)
      else
        var rest := d.(waiting := d.waiting - {call});
        (match record
         case None => (rest, NotFound)
         case Some(meta) =>
           var (v, reply) := Step(prim, d.vault, Unlock(now, d.waiting[call], meta));
           (rest.(vault := v), if reply == Done then RpcReply.Unlocked(ReportedVersion(v)) else FailureOf(message)))
    case Other(event) => (d.(vault := Step(prim, d.vault, event).0), NoReply)
  }

  // ---- the handler -----------------------------------------------------------------

  class Handler {
    const vault: VaultState
    var waiting: map<nat, string>
    var nextCall: nat

    ghost function State(): Daemon
      reads this, vault, vault.rootKey, set a | a in vault.retired
    {
      Daemon(vault.State(), waiting, nextCall)
    }

    constructor (vault: VaultState)
      ensures this.vault == vault && State() == Daemon(vault.State(), map[], 0)
    {
      this.vault := vault;
      waiting, nextCall := map[], 0;
    }

    /** Up to the await. */
    method UnlockBegins(password: string, profileId: Bytes) returns (reply: RpcReply)
      modifies this
      ensures (State(), reply) == Handle(vault.prim, old(State()), UnlockRequested(password, profileId))
    {
      if password == "" || profileId == [] {
        return InvalidParams;
      }
      if vault.rootKey != null {
        return AlreadyUnlocked;
      }
      waiting := waiting[nextCall := password];
      nextCall := nextCall + 1;
      reply := Awaiting(nextCall - 1);
    }

    /** From the await on. */
    method RecordArrives(call: nat, now: int, record: Option<VaultMeta>, message: string) returns (reply: RpcReply)
      requires vault.Valid() && call in waiting
      modifies this, vault
      ensures vault.Valid()
      ensures (State(), reply) == Handle(vault.prim, old(State()), RecordFetched(call, now, record, message))
    {
      hide Step, Contents, FailureOf;
      var password := waiting[call];
      waiting := waiting - {call};
      if record == None {
        return NotFound;
      }
      var r := vault.UnlockWith(now, password, record.value);
      if r == Done {
        var version := vault.KeyVersion();
        reply := RpcReply.Unlocked(version);
      } else {
        reply := FailureOf(message);
      }
    }
  }

  // ---- one call ------------------------------------------------------------------------

  /** A call with a password and a profile, made while the vault is locked and answered while
      it still is: with a record the password opens, the vault then holds its key and
      metadata and the call reports its key version; otherwise the vault stays as it was and
      the call says why. */
  lemma UnlockCallExact(prim: Primitives, d: Daemon, password: string, profileId: Bytes, now: int,
                        record: Option<VaultMeta>, message: string)
    requires password != "" && profileId != [] && d.vault.rootKey.None? && d.nextCall !in d.waiting
    ensures var (b, begun) := Handle(prim, d, UnlockRequested(password, profileId));
            var (c, reply) := Handle(prim, b, RecordFetched(d.nextCall, now, record, message));
            begun == Awaiting(d.nextCall) && b.vault == d.vault && c.waiting == d.waiting
            && match record
               case None => reply == NotFound && c.vault == d.vault
               case Some(meta) =>
                 if OpenRecord(prim, password, meta).Some?
                 then reply == RpcReply.Unlocked(meta.keyVersion)
                      && c.vault.rootKey == OpenRecord(prim, password, meta) && c.vault.meta == Some(meta)
                 else (reply == WrongPassword || reply == InternalError) && c.vault == d.vault
  {
    hide OpenRecord;
    assert d.waiting[d.nextCall := password] - {d.nextCall} == d.waiting;
  }

  /** Otherwise nothing is awaited: without a password or a profile, or with the vault
      unlocked; parameters are checked first. */
  lemma UnlockRefused(prim: Primitives, d: Daemon, password: string, profileId: Bytes)
    ensures Handle(prim, d, UnlockRequested("", profileId)) == (d, InvalidParams)
    ensures Handle(prim, d, UnlockRequested(password, [])) == (d, InvalidParams)
    ensures password != "" && profileId != [] && d.vault.rootKey.Some? ==>
              Handle(prim, d, UnlockRequested(password, profileId)) == (d, AlreadyUnlocked)
  {}

  /** The other calls reach the vault as they are and leave the waiting ones alone. */
  lemma OthersPass(prim: Primitives, d: Daemon, e: Event)
    requires WellFormedEvent(e) && !e.Unlock?
    ensures var c := Handle(prim, d, Other(e)).0;
            c.vault == Step(prim, d.vault, e).0 && c.waiting == d.waiting && c.nextCall == d.nextCall
  {}

  /** The libraries' tag failures are wrong passwords; a text without any of the three words,
      such as one without a `t`, is an internal error. */
  lemma FailureTexts(before: string, after: string)
    ensures FailureOf(before + "tag" + after) == WrongPassword
    ensures FailureOf(before + "decrypt" + after) == WrongPassword
    ensures FailureOf(before + "auth" + after) == WrongPassword
    ensures 't' !in before ==> FailureOf(before) == InternalError
  {
    assert "tag"[0] == 't' && "decrypt"[6] == 't' && "auth"[2] == 't';
    Within(before, "tag", after);
    Within(before, "decrypt", after);
    Within(before, "auth", after);
  }

  lemma Within(before: string, word: string, after: string)
    ensures Includes(before + word + after, word)
  {
    assert (before + word + after)[|before|..] == word + after;
  }

  // ---- every run ---------------------------------------------------------------------

  ghost predicate WellFormedRun(es: seq<RpcEvent>) {
    forall i :: 0 <= i < |es| ==> WellFormed(es[i])
  }

  ghost function Run(prim: Primitives, d: Daemon, es: seq<RpcEvent>): Daemon
    requires WellFormedRun(es)
    decreases |es|
  {
    if es == [] then d else
      assert WellFormed(es[|es| - 1]);
      Handle(prim, Run(prim, d, es[..|es| - 1]), es[|es| - 1]).0
  }

  ghost predicate Zeroed(d: Daemon) {
    VaultRuns.Zeroed(d.vault)
  }

  /** At most one call awaits its record, and then the vault holds no key that matters. */
  ghost predicate OneToApply(d: Daemon) {
    && (forall x, y :: x in d.waiting && y in d.waiting ==> x == y)
    && (d.waiting != map[] ==> d.vault.rootKey.None? || VaultRuns.AllZero(d.vault.rootKey.value))
  }

  lemma OtherKeeps(prim: Primitives, v: View, e: Event)
    requires WellFormedEvent(e) && !e.Unlock?
    ensures Step(prim, v, e).0.rootKey == v.rootKey || Step(prim, v, e).0.rootKey == None
    ensures VaultRuns.Zeroed(Step(prim, v, e).0) <==> VaultRuns.Zeroed(v)
  {
    hide OpenRecord, Items.DecryptItem, Items.RekeyRows, Items.EncryptedWith, Rewrapped, VaultRuns.Zeroed;
    VaultRuns.StepZeroed(prim, v, e);
  }

  /** As long as no further call begins while one is waiting, that stays so, and no key is
      overwritten. */
  lemma HandleSafe(prim: Primitives, d: Daemon, e: RpcEvent)
    requires WellFormed(e) && OneToApply(d) && (e.UnlockRequested? ==> d.waiting == map[])
    ensures OneToApply(Handle(prim, d, e).0)
    ensures Zeroed(Handle(prim, d, e).0) <==> Zeroed(d)
  {
    hide Step, VaultRuns.Zeroed, VaultRuns.AllZero;
    match e
    case UnlockRequested(_, _) =>
    case Other(event) => OtherKeeps(prim, d.vault, event);
    case RecordFetched(call, now, record, _) =>
      if call in d.waiting {
        assert d.waiting - {call} == map[];
        if record.Some? {
          var u := Unlock(now, d.waiting[call], record.value);
          VaultRuns.StepZeroed(prim, d.vault, u);
        }
      }
  }

  /** When every unlock call is made with no other one under way, no key is overwritten in
      any run: every buffer that formerly held the root key is all zeros. */
  lemma {:induction false} SequentialUnlocksZero(prim: Primitives, autoLockMs: int, es: seq<RpcEvent>)
    requires WellFormedRun(es)
    requires forall i :: 0 <= i < |es| && es[i].UnlockRequested? ==>
               Run(prim, Start(autoLockMs), es[..i]).waiting == map[]
    ensures Zeroed(Run(prim, Start(autoLockMs), es)) && OneToApply(Run(prim, Start(autoLockMs), es))
    decreases |es|
  {
    hide Handle, WellFormed, OneToApply, Zeroed;
    if es == [] {
      StartSafe(autoLockMs);
    } else {
      var n := |es| - 1;
      assert WellFormed(es[n]);
      assert forall i :: 0 <= i < n ==> es[..n][i] == es[i] && es[..n][..i] == es[..i];
      SequentialUnlocksZero(prim, autoLockMs, es[..n]);
      HandleSafe(prim, Run(prim, Start(autoLockMs), es[..n]), es[n]);
    }
  }

  lemma StartSafe(autoLockMs: int)
    ensures Zeroed(Start(autoLockMs)) && OneToApply(Start(autoLockMs))
  {}

  /** Two calls that overlap both pass the test; when both records open, the second unlock
      overwrites the first key, whose buffer stays in memory as it was. */
  lemma OverlappingUnlocks(prim: Primitives, autoLockMs: int, now: int, p: string, q: string, profile: Bytes,
                           a: VaultMeta, b: VaultMeta, message: string)
    requires p != "" && q != "" && profile != []
    requires OpenRecord(prim, p, a).Some? && !VaultRuns.AllZero(OpenRecord(prim, p, a).value)
             && OpenRecord(prim, q, b).Some?
    ensures var es := [UnlockRequested(p, profile), UnlockRequested(q, profile),
                       RecordFetched(0, now, Some(a), message),
                       RecordFetched(1, now, Some(b), message)];
            WellFormedRun(es) && !Zeroed(Run(prim, Start(autoLockMs), es))
  {
    hide OpenRecord, Step, VaultRuns.AllZero, VaultRuns.Zeroed;
    var ra, rb := RecordFetched(0, now, Some(a), message), RecordFetched(1, now, Some(b), message);
    var first, second := UnlockRequested(p, profile), UnlockRequested(q, profile);
    var both := [] + [first] + [second];
    RunSnoc(prim, Start(autoLockMs), [], first);
    RunSnoc(prim, Start(autoLockMs), [] + [first], second);
    var d := Run(prim, Start(autoLockMs), both);
    assert d.waiting == map[0 := p, 1 := q];
    assert both + [ra] + [rb] == [first, second, ra, rb];
    RunSnoc(prim, Start(autoLockMs), both, ra);
    RunSnoc(prim, Start(autoLockMs), both + [ra], rb);
    TwoOverwrite(prim, d, 0, 1, now, a, b, message);
  }

  lemma RunSnoc(prim: Primitives, d: Daemon, es: seq<RpcEvent>, e: RpcEvent)
    requires WellFormedRun(es) && WellFormed(e)
    ensures WellFormedRun(es + [e]) && Run(prim, d, es + [e]) == Handle(prim, Run(prim, d, es), e).0
  {
    assert (es + [e])[..|es|] == es;
  }

  lemma OneOverwrites(prim: Primitives, d: Daemon, x: nat, now: int, a: VaultMeta, message: string)
    requires x in d.waiting && OpenRecord(prim, d.waiting[x], a).Some?
    ensures var c := Handle(prim, d, RecordFetched(x, now, Some(a), message)).0;
            c.vault.rootKey == OpenRecord(prim, d.waiting[x], a) && c.waiting == d.waiting - {x}
            && (d.vault.rootKey.Some? && !VaultRuns.AllZero(d.vault.rootKey.value) ==> !Zeroed(c))
  {
    hide OpenRecord, VaultRuns.AllZero, VaultRuns.Zeroed;
    VaultRuns.StepZeroed(prim, d.vault, Unlock(now, d.waiting[x], a));
  }

  lemma TwoOverwrite(prim: Primitives, d: Daemon, x: nat, y: nat, now: int, a: VaultMeta, b: VaultMeta, message: string)
    requires x in d.waiting && y in d.waiting && x != y
    requires OpenRecord(prim, d.waiting[x], a).Some? && !VaultRuns.AllZero(OpenRecord(prim, d.waiting[x], a).value)
    requires OpenRecord(prim, d.waiting[y], b).Some?
    ensures var c := Handle(prim, d, RecordFetched(x, now, Some(a), message)).0;
            !Zeroed(Handle(prim, c, RecordFetched(y, now, Some(b), message)).0)
  {
    hide Handle, OpenRecord, VaultRuns.AllZero, VaultRuns.Zeroed;
    OneOverwrites(prim, d, x, now, a, message);
    OneOverwrites(prim, Handle(prim, d, RecordFetched(x, now, Some(a), message)).0, y, now, b, message);
  }

  // ---- exactly when -------------------------------------------------------------------

  ghost predicate NoRequest(es: seq<RpcEvent>) {
    WellFormedRun(es) && forall i :: 0 <= i < |es| ==> !es[i].UnlockRequested?
  }

  lemma {:induction false} StaysSafe(prim: Primitives, d: Daemon, fs: seq<RpcEvent>)
    requires Zeroed(d) && OneToApply(d) && NoRequest(fs)
    ensures Zeroed(Run(prim, d, fs)) && OneToApply(Run(prim, d, fs))
    decreases |fs|
  {
    hide Handle, Zeroed, OneToApply, WellFormed;
    if fs != [] {
      var n := |fs| - 1;
      assert WellFormed(fs[n]);
      StaysSafe(prim, d, fs[..n]);
      HandleSafe(prim, Run(prim, d, fs[..n]), fs[n]);
    }
  }

  /** From any state of the daemon, when each waiting call's password opens some record to a
      key that is not zero: whatever records the server sends and whatever else is called,
      short of new unlock calls, former keys stay zeroed exactly when at most one call is
      waiting and no key is held meanwhile. */
  lemma OverwritePossibleIff(prim: Primitives, d: Daemon, records: map<nat, VaultMeta>)
    requires Zeroed(d) && d.waiting.Keys <= records.Keys
    requires forall x :: x in d.waiting ==>
               OpenRecord(prim, d.waiting[x], records[x]).Some?
               && !VaultRuns.AllZero(OpenRecord(prim, d.waiting[x], records[x]).value)
    ensures (forall fs :: NoRequest(fs) ==> Zeroed(Run(prim, d, fs))) <==> OneToApply(d)
  {
    hide Handle, OpenRecord, VaultRuns.AllZero, VaultRuns.Zeroed;
    if OneToApply(d) {
      forall fs | NoRequest(fs)
        ensures Zeroed(Run(prim, d, fs))
      {
        StaysSafe(prim, d, fs);
      }
    } else {
      var x: nat :| x in d.waiting;
      var f := RecordFetched(x, 0, Some(records[x]), "");
      RunSnoc(prim, d, [], f);
      OneOverwrites(prim, d, x, 0, records[x], "");
      if y: nat :| y in d.waiting && y != x {
        var g := RecordFetched(y, 0, Some(records[y]), "");
        TwoOverwrite(prim, d, x, y, 0, records[x], records[y], "");
        RunSnoc(prim, d, [] + [f], g);
        assert NoRequest([] + [f] + [g]) && !Zeroed(Run(prim, d, [] + [f] + [g]));
      } else {
        assert NoRequest([] + [f]) && !Zeroed(Run(prim, d, [] + [f]));
      }
    }
  }
}
