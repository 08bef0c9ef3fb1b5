/**
 The daemon client's trust-on-first-use handshake, shared by concurrent calls. Every
 await is a separate event, and events come in any order.
 */
module Tofu {
  import opened Basics

  /** Signature checking and key fingerprints, and which callbacks are configured. */
  datatype Config = Config(
    verify: (string, string, int, string) -> bool,
    fingerprint: string -> string,
    hasGetPinned: bool,
    hasOnFirstContact: bool)

  /** What `identity.sign` came back with. */
  datatype Reply = Rejected | Malformed | Identity(signature: string, publicKey: string, sessionStartMs: int)

  datatype Progress =
    | AwaitingReply
    | AwaitingPin(fingerprint: string)
    | Pinning(fingerprint: string)
    | Succeeded(fingerprint: string)
    | Failed

  /** One run of performHandshake. `settled` once its finally-callback has run. */
  datatype Handshake = Handshake(nonce: string, progress: Progress, settled: bool, reply: Option<Reply>,
                                 pinSeen: Option<string>)

  datatype CallState = Waiting(handshake: nat) | Cleared | Sent | Refused

  datatype Call = Call(sensitive: bool, state: CallState)

  datatype Frame = SignRequest(id: nat, handshake: nat) | Request(id: nat, call: nat)

  datatype Client = Client(
    verifiedFingerprint: Option<string>,
    verifyInFlight: Option<nat>,
    nextId: nat,
    calls: seq<Call>,
    handshakes: seq<Handshake>,
    frames: seq<Frame>,
    /** The fingerprint in persistent storage. */
    pinned: Option<string>,
    /** How often onFirstContact was called, how often it stored a fingerprint, and how
        often it threw. */
    contacts: nat,
    pinWrites: nat,
    contactThrows: nat)

  datatype Event =
    | Invoke(sensitive: bool, nonce: string)
    | ReplyArrives(handshake: nat, reply: Reply)
    | PinRead(handshake: nat, ok: bool)
    | PinStored(handshake: nat, ok: bool)
    | Settle(handshake: nat)
    | Resume(call: nat)
    | Write(call: nat)
    | PinChangedElsewhere(pinned: Option<string>)

  function Initial(pinned: Option<string>): Client {
    Client(None, None, 1, [], [], [], pinned, 0, 0, 0)
  }

  function Ended(p: Progress): bool {
    p.Succeeded? || p.Failed?
  }

  function WithProgress(c: Client, h: nat, p: Progress): Client
    requires h < |c.handshakes|
  {
    c.(handshakes := c.handshakes[h := c.handshakes[h].(progress := p)])
  }

  /** What the reply amounts to, for the nonce of this handshake. */
  function Judge(cfg: Config, nonce: string, reply: Reply): Progress {
    match reply
    case Identity(signature, publicKey, sessionStartMs) =>
      if signature != "" && publicKey != "" && cfg.verify(publicKey, nonce, sessionStartMs, signature)
      then AwaitingPin(cfg.fingerprint(publicKey)) else Failed
    case _ => Failed
  }

  function Step(cfg: Config, c: Client, e: Event): Client {
    match e
    case Invoke(sensitive, nonce) =>
      if !sensitive || c.verifiedFingerprint.Some? then c.(calls := c.calls + [Call(sensitive, Cleared)])
      else if c.verifyInFlight.Some? then c.(calls := c.calls + [Call(sensitive, Waiting(c.verifyInFlight.value))])
      else
        var h := |c.handshakes|;
        c.(calls := c.calls + [Call(sensitive, Waiting(h))],
           handshakes := c.handshakes + [Handshake(nonce, AwaitingReply, false, None, None)],
           frames := c.frames + [SignRequest(c.nextId, h)],
           nextId := c.nextId + 1,
           verifyInFlight := Some(h))
    case ReplyArrives(h, reply) =>
      if h < |c.handshakes| && c.handshakes[h].progress.AwaitingReply? then
        var x := c.handshakes[h];
        c.(handshakes := c.handshakes[h := x.(reply := Some(reply), progress := Judge(cfg, x.nonce, reply))])
      else c
    case PinRead(h, ok) =>
      if h < |c.handshakes| && c.handshakes[h].progress.AwaitingPin? then
        var x := c.handshakes[h];
        var seen := if cfg.hasGetPinned then c.pinned else None;
        var p :=
          if cfg.hasGetPinned && !ok then Failed
          else if seen.None? then
            if cfg.hasOnFirstContact then Pinning(x.progress.fingerprint) else Succeeded(x.progress.fingerprint)
          else if seen.value == x.progress.fingerprint then Succeeded(x.progress.fingerprint) else Failed;
        c.(handshakes := c.handshakes[h := x.(pinSeen := seen, progress := p)],
           contacts := c.contacts + if p.Pinning? then 1 else 0)
      else c
    case PinStored(h, ok) =>
      if h < |c.handshakes| && c.handshakes[h].progress.Pinning? then
        var fp := c.handshakes[h].progress.fingerprint;
        if ok then WithProgress(c, h, Succeeded(fp)).(pinned := Some(fp), pinWrites := c.pinWrites + 1)
        else WithProgress(c, h, Failed).(contactThrows := c.contactThrows + 1)
      else c
    case Settle(h) =>
      if h < |c.handshakes| && Ended(c.handshakes[h].progress) && !c.handshakes[h].settled then
        c.(handshakes := c.handshakes[h := c.handshakes[h].(settled := true)], verifyInFlight := None)
      else c
    case Resume(k) =>
      if k < |c.calls| && c.calls[k].state.Waiting? && c.calls[k].state.handshake < |c.handshakes|
         && c.handshakes[c.calls[k].state.handshake].settled then
        match c.handshakes[c.calls[k].state.handshake].progress
        case Succeeded(fp) => c.(verifiedFingerprint := Some(fp), calls := c.calls[k := c.calls[k].(state := Cleared)])
        case _ => c.(calls := c.calls[k := c.calls[k].(state := Refused)])
      else c
    case Write(k) =>
      if k < |c.calls| && c.calls[k].state.Cleared? then
        c.(calls := c.calls[k := c.calls[k].(state := Sent)],
           frames := c.frames + [Request(c.nextId, k)], nextId := c.nextId + 1)
      else c
    case PinChangedElsewhere(p) => c.(pinned := p)
  }

  // ---- the object --------------------------------------------------------------------

  class DaemonClient {
    const cfg: Config
    var verifiedFingerprint: Option<string>
    var verifyInFlight: Option<nat>
    var nextId: nat
    var calls: seq<Call>
    var handshakes: seq<Handshake>
    var frames: seq<Frame>
    var pinned: Option<string>
    ghost var contacts: nat
    ghost var pinWrites: nat
    ghost var contactThrows: nat

    ghost function State(): Client
      reads this
    {
      Client(verifiedFingerprint, verifyInFlight, nextId, calls, handshakes, frames, pinned, contacts, pinWrites,
             contactThrows)
    }

    constructor (cfg: Config, pinned: Option<string>)
      ensures this.cfg == cfg && State() == Initial(pinned)
    {
      this.cfg := cfg;
      verifiedFingerprint, verifyInFlight, nextId := None, None, 1;
      calls, handshakes, frames := [], [], [];
      this.pinned, contacts, pinWrites, contactThrows := pinned, 0, 0, 0;
    }

    /** `send` up to its first await: ensureVerified finds the client verified, joins the
        handshake in flight, or starts one. */
    method SendBegins(sensitive: bool, nonce: string)
      modifies this
      ensures State() == Step(cfg, old(State()), Invoke(sensitive, nonce))
    {
      if !sensitive || verifiedFingerprint.Some? {
        calls := calls + [Call(sensitive, Cleared)];
        return;
      }
      if verifyInFlight.None? {
        handshakes := handshakes + [Handshake(nonce, AwaitingReply, false, None, None)];
        frames := frames + [SignRequest(nextId, |handshakes| - 1)];
        nextId := nextId + 1;
        verifyInFlight := Some(|handshakes| - 1);
      }
      calls := calls + [Call(sensitive, Waiting(verifyInFlight.value))];
    }

    /** `performHandshake` from the reply to reading the pin. */
    method HandshakeReply(h: nat, reply: Reply)
      requires h < |handshakes| && handshakes[h].progress.AwaitingReply?
      modifies this
      ensures State() == Step(cfg, old(State()), ReplyArrives(h, reply))
    {
      var x := handshakes[h];
      var progress := Failed;
      if reply.Identity? && reply.signature != "" && reply.publicKey != "" {
        var ok := cfg.verify(reply.publicKey, x.nonce, reply.sessionStartMs, reply.signature);
        if ok {
          progress := AwaitingPin(cfg.fingerprint(reply.publicKey));
        }
      }
      handshakes := handshakes[h := x.(reply := Some(reply), progress := progress)];
    }

    /** `performHandshake` from the pin to its end, or to storing a first pin. */
    method HandshakePin(h: nat, ok: bool)
      requires h < |handshakes| && handshakes[h].progress.AwaitingPin?
      modifies this
      ensures State() == Step(cfg, old(State()), PinRead(h, ok))
    {
      var x := handshakes[h];
      var fp := x.progress.fingerprint;
      var seen := if cfg.hasGetPinned then pinned else None;
      var progress := Succeeded(fp);
      if cfg.hasGetPinned && !ok {
        progress := Failed;
      } else if seen == None {
        if cfg.hasOnFirstContact {
          progress := Pinning(fp);
          contacts := contacts + 1;
        }
      } else if seen != Some(fp) {
        progress := Failed;
      }
      handshakes := handshakes[h := x.(pinSeen := seen, progress := progress)];
    }

    /** `performHandshake` after the first-contact callback. */
    method HandshakeStored(h: nat, ok: bool)
      requires h < |handshakes| && handshakes[h].progress.Pinning?
      modifies this
      ensures State() == Step(cfg, old(State()), PinStored(h, ok))
    {
      var x := handshakes[h];
      var fp := x.progress.fingerprint;
      if ok {
        pinned := Some(fp);
        pinWrites := pinWrites + 1;
        handshakes := handshakes[h := x.(progress := Succeeded(fp))];
      } else {
        contactThrows := contactThrows + 1;
        handshakes := handshakes[h := x.(progress := Failed)];
      }
    }

    /** The finally-callback, which runs before any waiting call resumes. */
    method HandshakeSettles(h: nat)
      requires h < |handshakes| && Ended(handshakes[h].progress) && !handshakes[h].settled
      modifies this
      ensures State() == Step(cfg, old(State()), Settle(h))
    {
      verifyInFlight := None;
      handshakes := handshakes[h := handshakes[h].(settled := true)];
    }

    /** A waiting call resumes: it records the fingerprint or throws. */
    method CallResumes(k: nat)
      requires k < |calls| && calls[k].state.Waiting? && calls[k].state.handshake < |handshakes|
      requires handshakes[calls[k].state.handshake].settled
      modifies this
      ensures State() == Step(cfg, old(State()), Resume(k))
    {
      var p := handshakes[calls[k].state.handshake].progress;
      if p.Succeeded? {
        verifiedFingerprint := Some(p.fingerprint);
        calls := calls[k := calls[k].(state := Cleared)];
      } else {
        calls := calls[k := calls[k].(state := Refused)];
      }
    }

    /** `sendRaw` of a cleared call. */
    method SendRaw(k: nat)
      requires k < |calls| && calls[k].state.Cleared?
      modifies this
      ensures State() == Step(cfg, old(State()), Write(k))
    {
      frames := frames + [Request(nextId, k)];
      nextId := nextId + 1;
      calls := calls[k := calls[k].(state := Sent)];
    }
  }

  // ---- every run -----------------------------------------------------------------------

  function Run(cfg: Config, c: Client, es: seq<Event>): Client {
    if es == [] then c else Step(cfg, Run(cfg, c, es[..|es| - 1]), es[|es| - 1])
  }

  /** The reply was signed over this handshake's own nonce by the key with this
      fingerprint, and no other fingerprint was pinned when it was looked up. */
  ghost predicate Authentic(cfg: Config, x: Handshake, fp: string) {
    && x.reply.Some? && x.reply.value.Identity?
    && var r := x.reply.value;
       cfg.verify(r.publicKey, x.nonce, r.sessionStartMs, r.signature) && fp == cfg.fingerprint(r.publicKey)
  }

  ghost predicate Genuine(cfg: Config, x: Handshake) {
    && x.progress.Succeeded?
    && Authentic(cfg, x, x.progress.fingerprint)
    && (x.pinSeen.None? || x.pinSeen == Some(x.progress.fingerprint))
  }

  ghost predicate HandshakeInvariant(cfg: Config, x: Handshake) {
    match x.progress
    case AwaitingReply => x.pinSeen.None?
    case AwaitingPin(fp) => Authentic(cfg, x, fp) && x.pinSeen.None?
    case Pinning(fp) => Authentic(cfg, x, fp) && x.pinSeen.None?
    case Succeeded(_) => Genuine(cfg, x)
    case Failed => true
  }

  /** Some handshake has succeeded (with this fingerprint). */
  ghost predicate Proven(c: Client, fp: string) {
    exists h :: 0 <= h < |c.handshakes| && c.handshakes[h].progress == Succeeded(fp)
  }

  ghost predicate SomeProven(c: Client) {
    exists h :: 0 <= h < |c.handshakes| && c.handshakes[h].progress.Succeeded?
  }

  /** Handshakes are only added, and those that have succeeded stay as they are. */
  ghost predicate Keeps(c: Client, d: Client) {
    && |c.handshakes| <= |d.handshakes|
    && forall h :: 0 <= h < |c.handshakes| && c.handshakes[h].progress.Succeeded?
        ==> d.handshakes[h].progress == c.handshakes[h].progress
  }

  lemma StepKeeps(cfg: Config, c: Client, e: Event)
    ensures Keeps(c, Step(cfg, c, e))
  {}

  lemma ProvenStays(c: Client, d: Client, fp: string)
    requires Keeps(c, d)
    ensures Proven(c, fp) ==> Proven(d, fp)
    ensures SomeProven(c) ==> SomeProven(d)
  {
    if Proven(c, fp) {
      var h :| 0 <= h < |c.handshakes| && c.handshakes[h].progress == Succeeded(fp);
      assert d.handshakes[h].progress == Succeeded(fp);
    }
    if SomeProven(c) {
      var h :| 0 <= h < |c.handshakes| && c.handshakes[h].progress.Succeeded?;
      assert d.handshakes[h].progress.Succeeded?;
    }
  }

  lemma ProvenIsSome(c: Client, fp: string)
    requires Proven(c, fp)
    ensures SomeProven(c)
  {
    var h :| 0 <= h < |c.handshakes| && c.handshakes[h].progress == Succeeded(fp);
    assert c.handshakes[h].progress.Succeeded?;
  }

  /** The part of the invariant about handshakes: each is what its progress says, and at
      most one is running, the one in flight. */
  ghost predicate HandshakesSafe(cfg: Config, c: Client) {
    && (forall h :: 0 <= h < |c.handshakes| ==> HandshakeInvariant(cfg, c.handshakes[h]))
    && (forall h :: 0 <= h < |c.handshakes| && !c.handshakes[h].settled ==> c.verifyInFlight == Some(h))
    && (forall h :: 0 <= h < |c.handshakes| && c.handshakes[h].settled ==> Ended(c.handshakes[h].progress))
    && (c.verifyInFlight.Some? ==>
          c.verifyInFlight.value < |c.handshakes| && !c.handshakes[c.verifyInFlight.value].settled)
  }

  /** A sensitive call that the gate has let through. */
  predicate PastGate(x: Call) {
    x.sensitive && (x.state.Cleared? || x.state.Sent?)
  }

  /** The part about calls and frames: verified means some handshake succeeded with this
      fingerprint, and a sensitive call gets past the gate only after one did. */
  ghost predicate CallsSafe(c: Client) {
    && (c.verifiedFingerprint.Some? ==> Proven(c, c.verifiedFingerprint.value))
    && (forall k :: 0 <= k < |c.calls| && PastGate(c.calls[k]) ==> SomeProven(c))
    && (forall f :: 0 <= f < |c.frames| && c.frames[f].Request?
          ==> c.frames[f].call < |c.calls| && c.calls[c.frames[f].call].state.Sent?)
  }

  ghost predicate Safe(cfg: Config, c: Client) {
    HandshakesSafe(cfg, c) && CallsSafe(c)
  }

  /** A handshake that is running may move on to whatever its progress then says. */
  lemma HandshakeMoves(cfg: Config, c: Client, d: Client, h: nat)
    requires HandshakesSafe(cfg, c) && h < |c.handshakes| && !Ended(c.handshakes[h].progress)
    requires |d.handshakes| == |c.handshakes| && d.handshakes == c.handshakes[h := d.handshakes[h]]
    requires d.verifyInFlight == c.verifyInFlight
    requires HandshakeInvariant(cfg, d.handshakes[h]) && !d.handshakes[h].settled
    ensures HandshakesSafe(cfg, d)
  {
    hide HandshakeInvariant;
  }

  lemma HandshakeStarts(cfg: Config, c: Client, sensitive: bool, nonce: string)
    requires HandshakesSafe(cfg, c)
    ensures HandshakesSafe(cfg, Step(cfg, c, Invoke(sensitive, nonce)))
  {
    var d := Step(cfg, c, Invoke(sensitive, nonce));
    assert forall h :: 0 <= h < |c.handshakes| ==> d.handshakes[h] == c.handshakes[h];
  }

  lemma HandshakeEnds(cfg: Config, c: Client, h: nat)
    requires HandshakesSafe(cfg, c)
    ensures HandshakesSafe(cfg, Step(cfg, c, Settle(h)))
  {
    if h < |c.handshakes| && !c.handshakes[h].settled {
      assert c.verifyInFlight == Some(h);
      assert HandshakeInvariant(cfg, c.handshakes[h]);
    }
  }

  lemma StepHandshakes(cfg: Config, c: Client, e: Event)
    requires HandshakesSafe(cfg, c)
    ensures HandshakesSafe(cfg, Step(cfg, c, e))
  {
    hide HandshakesSafe;
    var d := Step(cfg, c, e);
    match e
    case Invoke(sensitive, nonce) => HandshakeStarts(cfg, c, sensitive, nonce);
    case Settle(h) => HandshakeEnds(cfg, c, h);
    case ReplyArrives(h, _) => HandshakeMoved(cfg, c, e, h);
    case PinRead(h, _) => HandshakeMoved(cfg, c, e, h);
    case PinStored(h, _) => HandshakeMoved(cfg, c, e, h);
    case _ => SameHandshakes(cfg, c, d);
  }

  lemma SameHandshakes(cfg: Config, c: Client, d: Client)
    requires HandshakesSafe(cfg, c) && d.handshakes == c.handshakes && d.verifyInFlight == c.verifyInFlight
    ensures HandshakesSafe(cfg, d)
  {}

  lemma HandshakeMoved(cfg: Config, c: Client, e: Event, h: nat)
    requires HandshakesSafe(cfg, c)
    requires (e.ReplyArrives? || e.PinRead? || e.PinStored?) && h == e.handshake
    ensures HandshakesSafe(cfg, Step(cfg, c, e))
  {
    var d := Step(cfg, c, e);
    if d != c {
      RunningUnsettled(cfg, c, h);
      hide HandshakesSafe;
      HandshakeMoves(cfg, c, d, h);
    }
  }

  lemma RunningUnsettled(cfg: Config, c: Client, h: nat)
    requires HandshakesSafe(cfg, c) && h < |c.handshakes| && !Ended(c.handshakes[h].progress)
    ensures !c.handshakes[h].settled && HandshakeInvariant(cfg, c.handshakes[h])
  {}

  lemma StepCalls(cfg: Config, c: Client, e: Event)
    requires CallsSafe(c)
    ensures CallsSafe(Step(cfg, c, e))
  {
    hide Proven, SomeProven, Judge;
    var d := Step(cfg, c, e);
    StepKeeps(cfg, c, e);
    var fp := if c.verifiedFingerprint.Some? then c.verifiedFingerprint.value else "";
    ProvenStays(c, d, fp);
    if c.verifiedFingerprint.Some? {
      ProvenIsSome(c, fp);
    }
    match e
    case Resume(k) =>
      if d != c && c.handshakes[c.calls[k].state.handshake].progress.Succeeded? {
        Witness(d, c.calls[k].state.handshake);
      }
    case _ =>
  }

  lemma StepSafe(cfg: Config, c: Client, e: Event)
    requires Safe(cfg, c)
    ensures Safe(cfg, Step(cfg, c, e))
  {
    hide Step, HandshakesSafe, CallsSafe;
    StepHandshakes(cfg, c, e);
    StepCalls(cfg, c, e);
  }

  lemma Witness(c: Client, h: nat)
    requires h < |c.handshakes| && c.handshakes[h].progress.Succeeded?
    ensures Proven(c, c.handshakes[h].progress.fingerprint) && SomeProven(c)
  {}

  /** In every run, whatever the interleaving, the invariant holds. */
  lemma {:induction false} AlwaysSafe(cfg: Config, pinned: Option<string>, es: seq<Event>)
    ensures Safe(cfg, Run(cfg, Initial(pinned), es))
    decreases |es|
  {
    hide Safe, Step;
    if es == [] {
      InitiallySafe(cfg, pinned);
    } else {
      AlwaysSafe(cfg, pinned, es[..|es| - 1]);
      StepSafe(cfg, Run(cfg, Initial(pinned), es[..|es| - 1]), es[|es| - 1]);
    }
  }

  lemma InitiallySafe(cfg: Config, pinned: Option<string>)
    ensures Safe(cfg, Initial(pinned))
  {}

  /** In any state of any run, a sensitive call that is about to write its frame, or has
      written it, is preceded by a handshake that succeeded with a signature over its own
      nonce, and that found in the pin storage, when it looked, nothing or its own
      fingerprint. */
  lemma SensitiveCallsAreGated(cfg: Config, pinned: Option<string>, es: seq<Event>, k: nat)
    requires var c := Run(cfg, Initial(pinned), es);
             k < |c.calls| && PastGate(c.calls[k])
    ensures var c := Run(cfg, Initial(pinned), es);
            exists h :: 0 <= h < |c.handshakes| && Genuine(cfg, c.handshakes[h]) && SawStorage(cfg, pinned, es, h)
  {
    AlwaysSafe(cfg, pinned, es);
    var c := Run(cfg, Initial(pinned), es);
    assert SomeProven(c);
    var h :| 0 <= h < |c.handshakes| && c.handshakes[h].progress.Succeeded?;
    assert HandshakeInvariant(cfg, c.handshakes[h]);
    SeenIsStored(cfg, pinned, es, h);
  }

  /** What handshake h saw is what was stored at the moment it read the pin. */
  ghost predicate SawStorage(cfg: Config, pinned: Option<string>, es: seq<Event>, h: nat) {
    && h < |Run(cfg, Initial(pinned), es).handshakes|
    && exists i :: 0 <= i < |es| && ReadsPin(es[i], h)
                   && Run(cfg, Initial(pinned), es).handshakes[h].pinSeen
                      == if cfg.hasGetPinned then Run(cfg, Initial(pinned), es[..i]).pinned else None
  }

  ghost predicate ReadsPin(e: Event, h: nat) {
    e.PinRead? && e.handshake == h
  }

  /** Past the pin, a handshake has seen what was stored. */
  lemma {:induction false} SeenIsStored(cfg: Config, pinned: Option<string>, es: seq<Event>, h: nat)
    requires var c := Run(cfg, Initial(pinned), es);
             h < |c.handshakes| && (c.handshakes[h].progress.Succeeded? || c.handshakes[h].progress.Pinning?)
    ensures SawStorage(cfg, pinned, es, h)
    decreases |es|
  {
    hide Step, Run, Judge;
    if es == [] {
      RunNothing(cfg, pinned);
    } else {
      var n := |es| - 1;
      var b, c := Run(cfg, Initial(pinned), es[..n]), Run(cfg, Initial(pinned), es);
      assert es == es[..n] + [es[n]];
      RunSnoc(cfg, pinned, es[..n], es[n]);
      StepSees(cfg, b, es[n], h);
      if !ReadsPin(es[n], h) || c.handshakes[h] == b.handshakes[h] {
        SeenIsStored(cfg, pinned, es[..n], h);
        var i :| 0 <= i < n && ReadsPin(es[..n][i], h)
                 && b.handshakes[h].pinSeen == if cfg.hasGetPinned
                   then Run(cfg, Initial(pinned), es[..n][..i]).pinned else None;
        assert es[..n][..i] == es[..i] && es[..n][i] == es[i];
      }
    }
  }

  lemma RunNothing(cfg: Config, pinned: Option<string>)
    ensures Run(cfg, Initial(pinned), []) == Initial(pinned)
  {}

  lemma StepSees(cfg: Config, c: Client, e: Event, h: nat)
    requires var d := Step(cfg, c, e);
             h < |d.handshakes| && (d.handshakes[h].progress.Succeeded? || d.handshakes[h].progress.Pinning?)
    ensures var d := Step(cfg, c, e);
            h < |c.handshakes|
            && (if ReadsPin(e, h) && d.handshakes[h] != c.handshakes[h]
                then d.handshakes[h].pinSeen == if cfg.hasGetPinned then c.pinned else None
                else (c.handshakes[h].progress.Succeeded? || c.handshakes[h].progress.Pinning?)
                     && d.handshakes[h].pinSeen == c.handshakes[h].pinSeen)
  {}

  /** Every frame written for a call is that of a call past the gate. */
  lemma FramesComeFromClearedCalls(cfg: Config, pinned: Option<string>, es: seq<Event>, f: nat)
    requires f < |Run(cfg, Initial(pinned), es).frames| && Run(cfg, Initial(pinned), es).frames[f].Request?
    ensures var c := Run(cfg, Initial(pinned), es);
            c.frames[f].call < |c.calls| && c.calls[c.frames[f].call].state.Sent?
  {
    AlwaysSafe(cfg, pinned, es);
  }

  /** At most one handshake runs at a time. */
  lemma OneHandshakeAtATime(cfg: Config, pinned: Option<string>, es: seq<Event>, g: nat, h: nat)
    requires var c := Run(cfg, Initial(pinned), es);
             g < |c.handshakes| && h < |c.handshakes| && !c.handshakes[g].settled && !c.handshakes[h].settled
    ensures g == h
  {
    AlwaysSafe(cfg, pinned, es);
  }

  /** A client none of whose handshakes succeeded is unverified and has written nothing
      sensitive; and a resumed call whose handshake failed is refused, leaving the
      verification state alone. */
  lemma FailureLeavesUnverified(cfg: Config, pinned: Option<string>, es: seq<Event>)
    ensures var c := Run(cfg, Initial(pinned), es);
            (forall h :: 0 <= h < |c.handshakes| ==> !c.handshakes[h].progress.Succeeded?) ==>
              c.verifiedFingerprint.None?
              && forall f :: 0 <= f < |c.frames| && c.frames[f].Request? ==>
                   c.frames[f].call < |c.calls| && !c.calls[c.frames[f].call].sensitive
  {
    AlwaysSafe(cfg, pinned, es);
  }

  lemma StepWaits(cfg: Config, c: Client, e: Event, k: nat, h: nat)
    requires k < |c.calls| && (c.calls[k].state == Waiting(h) || c.calls[k].state.Refused?)
    requires h < |c.handshakes| && c.handshakes[h].progress.Failed?
    ensures var d := Step(cfg, c, e);
            k < |d.calls| && (d.calls[k].state == Waiting(h) || d.calls[k].state.Refused?)
            && h < |d.handshakes| && d.handshakes[h].progress.Failed?
  {}

  /** A call that waits for a handshake that failed is never cleared, whatever else
      happens: it stays waiting or is refused, and its frame is never written. */
  lemma {:induction false} FailedCallRefused(cfg: Config, pinned: Option<string>, es: seq<Event>, fs: seq<Event>,
                                             k: nat, h: nat)
    requires var c := Run(cfg, Initial(pinned), es);
             k < |c.calls| && c.calls[k].state == Waiting(h) && h < |c.handshakes| && c.handshakes[h].progress.Failed?
    ensures var d := Run(cfg, Initial(pinned), es + fs);
            k < |d.calls| && (d.calls[k].state == Waiting(h) || d.calls[k].state.Refused?)
            && forall f :: 0 <= f < |d.frames| && d.frames[f].Request? ==> d.frames[f].call != k
  {
    StaysUncleared(cfg, pinned, es, fs, k, h);
    AlwaysSafe(cfg, pinned, es + fs);
  }

  lemma {:induction false} StaysUncleared(cfg: Config, pinned: Option<string>, es: seq<Event>, fs: seq<Event>, k: nat,
                                          h: nat)
    requires var c := Run(cfg, Initial(pinned), es);
             k < |c.calls| && c.calls[k].state == Waiting(h) && h < |c.handshakes| && c.handshakes[h].progress.Failed?
    ensures var d := Run(cfg, Initial(pinned), es + fs);
            k < |d.calls| && (d.calls[k].state == Waiting(h) || d.calls[k].state.Refused?)
            && h < |d.handshakes| && d.handshakes[h].progress.Failed?
    decreases |fs|
  {
    hide Step, Run;
    if fs == [] {
      assert es + fs == es;
    } else {
      var n := |fs| - 1;
      StaysUncleared(cfg, pinned, es, fs[..n], k, h);
      assert es + fs == (es + fs[..n]) + [fs[n]];
      RunSnoc(cfg, pinned, es + fs[..n], fs[n]);
      StepWaits(cfg, Run(cfg, Initial(pinned), es + fs[..n]), fs[n], k, h);
    }
  }

  lemma RunSnoc(cfg: Config, pinned: Option<string>, es: seq<Event>, e: Event)
    ensures Run(cfg, Initial(pinned), es + [e]) == Step(cfg, Run(cfg, Initial(pinned), es), e)
  {
    assert (es + [e])[..|es|] == es;
  }

  ghost predicate SomeCleared(c: Client) {
    exists k :: 0 <= k < |c.calls| && PastGate(c.calls[k])
  }

  /** Verified means that some sensitive call has been cleared; and only such calls wait. */
  ghost predicate ClearedVerified(c: Client) {
    && (c.verifiedFingerprint.Some? <==> SomeCleared(c))
    && (forall k :: 0 <= k < |c.calls| && c.calls[k].state.Waiting? ==> c.calls[k].sensitive)
  }

  lemma CallWitness(c: Client, k: nat)
    requires k < |c.calls| && PastGate(c.calls[k])
    ensures SomeCleared(c)
  {}

  lemma ClearedStays(c: Client, d: Client)
    requires |c.calls| <= |d.calls|
    requires forall k :: 0 <= k < |c.calls| && PastGate(c.calls[k]) ==> PastGate(d.calls[k])
    ensures SomeCleared(c) ==> SomeCleared(d)
  {
    if SomeCleared(c) {
      var k :| 0 <= k < |c.calls| && PastGate(c.calls[k]);
      CallWitness(d, k);
    }
  }

  lemma NoneCleared(c: Client, d: Client)
    requires !SomeCleared(c)
    requires forall k :: 0 <= k < |d.calls| && PastGate(d.calls[k]) ==> k < |c.calls| && PastGate(c.calls[k])
    ensures !SomeCleared(d)
  {}

  lemma StepCleared(cfg: Config, c: Client, e: Event)
    requires ClearedVerified(c)
    ensures ClearedVerified(Step(cfg, c, e))
  {
    hide SomeCleared, Judge;
    var d := Step(cfg, c, e);
    ClearedStays(c, d);
    if d.verifiedFingerprint.Some? && c.verifiedFingerprint.None? {
      CallWitness(d, e.call);
    }
    if d.verifiedFingerprint.None? {
      NoneCleared(c, d);
    }
  }

  lemma {:induction false} AlwaysCleared(cfg: Config, pinned: Option<string>, es: seq<Event>)
    ensures ClearedVerified(Run(cfg, Initial(pinned), es))
    decreases |es|
  {
    hide Step, ClearedVerified;
    if es == [] {
      NoCalls(pinned);
    } else {
      AlwaysCleared(cfg, pinned, es[..|es| - 1]);
      StepCleared(cfg, Run(cfg, Initial(pinned), es[..|es| - 1]), es[|es| - 1]);
    }
  }

  lemma NoCalls(pinned: Option<string>)
    ensures ClearedVerified(Initial(pinned))
  {}

  /** Not "at most one ever": in any run a sensitive call starts a handshake exactly when no
      other is running and no sensitive call has been cleared yet. So after one that
      succeeded another begins exactly for a call made between its settling and the
      resumption of the first call that waits for it. */
  lemma HandshakeBeginsIff(cfg: Config, pinned: Option<string>, es: seq<Event>, nonce: string)
    ensures var c, d := Run(cfg, Initial(pinned), es), Run(cfg, Initial(pinned), es + [Invoke(true, nonce)]);
            |d.handshakes| == |c.handshakes| + 1
            <==> (forall h :: 0 <= h < |c.handshakes| ==> c.handshakes[h].settled)
                 && (forall k :: 0 <= k < |c.calls| ==> !PastGate(c.calls[k]))
  {
    hide Run;
    AlwaysSafe(cfg, pinned, es);
    AlwaysCleared(cfg, pinned, es);
    RunSnoc(cfg, pinned, es, Invoke(true, nonce));
    var c := Run(cfg, Initial(pinned), es);
    if c.verifyInFlight.Some? {
      assert !c.handshakes[c.verifyInFlight.value].settled;
    }
  }

  // ---- what is sent ------------------------------------------------------------------------

  /** In any run, a call that is not sensitive, and any call of a verified client, writes
      exactly its own frame, with the next id. */
  lemma ClearedCallIsWritten(cfg: Config, pinned: Option<string>, es: seq<Event>, sensitive: bool, nonce: string)
    requires !sensitive || Run(cfg, Initial(pinned), es).verifiedFingerprint.Some?
    ensures var c := Run(cfg, Initial(pinned), es);
            var d := Run(cfg, Initial(pinned), es + [Invoke(sensitive, nonce)] + [Write(|c.calls|)]);
            d.frames == c.frames + [Request(c.nextId, |c.calls|)] && d.nextId == c.nextId + 1
            && |d.calls| == |c.calls| + 1 && d.calls[|c.calls|].sensitive == sensitive
  {
    hide Run;
    var e, w := Invoke(sensitive, nonce), Write(|Run(cfg, Initial(pinned), es).calls|);
    RunSnoc(cfg, pinned, es, e);
    RunSnoc(cfg, pinned, es + [e], w);
  }

  /** A sensitive call that waits for a handshake that succeeded and settled records its
      fingerprint and writes its frame; for one that failed, it writes nothing. */
  lemma WaitingCallIsWritten(cfg: Config, pinned: Option<string>, es: seq<Event>, k: nat, h: nat)
    requires var c := Run(cfg, Initial(pinned), es);
             k < |c.calls| && c.calls[k].state == Waiting(h) && h < |c.handshakes| && c.handshakes[h].settled
    ensures var c := Run(cfg, Initial(pinned), es);
            var d := Run(cfg, Initial(pinned), es + [Resume(k)] + [Write(k)]);
            if c.handshakes[h].progress.Succeeded? then
              d.frames == c.frames + [Request(c.nextId, k)]
              && d.verifiedFingerprint == Some(c.handshakes[h].progress.fingerprint)
            else d.frames == c.frames && d.verifiedFingerprint == c.verifiedFingerprint
                 && d.calls == c.calls[k := Call(c.calls[k].sensitive, Refused)]
  {
    hide Run;
    RunSnoc(cfg, pinned, es, Resume(k));
    RunSnoc(cfg, pinned, es + [Resume(k)], Write(k));
  }

  /** The first sensitive call asks for a signature over its nonce and waits. */
  lemma FirstSensitiveCallAsks(cfg: Config, pinned: Option<string>, es: seq<Event>, nonce: string)
    requires var c := Run(cfg, Initial(pinned), es);
             c.verifiedFingerprint.None? && forall h :: 0 <= h < |c.handshakes| ==> c.handshakes[h].settled
    ensures var c := Run(cfg, Initial(pinned), es);
            var d, h := Run(cfg, Initial(pinned), es + [Invoke(true, nonce)]), |c.handshakes|;
            d.frames == c.frames + [SignRequest(c.nextId, h)] && d.calls == c.calls + [Call(true, Waiting(h))]
            && |d.handshakes| == h + 1 && d.handshakes[h].nonce == nonce && d.handshakes[h].progress == AwaitingReply
  {
    hide Run;
    AlwaysSafe(cfg, pinned, es);
    RunSnoc(cfg, pinned, es, Invoke(true, nonce));
  }

  /** How a handshake ends: with success exactly when the reply verifies over its nonce, the
      pin could be read if there is a reader, what it found is nothing or this fingerprint,
      and on first contact the callback, if there is one, does not throw. */
  lemma HandshakeOutcome(cfg: Config, c: Client, h: nat, reply: Reply, read: bool, stored: bool)
    requires h < |c.handshakes| && c.handshakes[h].progress == AwaitingReply
    ensures var d := Step(cfg, Step(cfg, Step(cfg, c, ReplyArrives(h, reply)), PinRead(h, read)), PinStored(h, stored));
            var found := if cfg.hasGetPinned then c.pinned else None;
            |d.handshakes| == |c.handshakes|
            && d.handshakes[h].progress
               == if Verifies(cfg, c.handshakes[h].nonce, reply) && (read || !cfg.hasGetPinned)
                     && (found.None? || found.value == cfg.fingerprint(reply.publicKey))
                     && (found.Some? || stored || !cfg.hasOnFirstContact)
                  then Succeeded(cfg.fingerprint(reply.publicKey)) else Failed
  {}

  /** Frames carry the ids 1, 2, 3, ... in the order they are written. */
  lemma {:induction false} FrameIds(cfg: Config, pinned: Option<string>, es: seq<Event>)
    ensures var c := Run(cfg, Initial(pinned), es);
            c.nextId == |c.frames| + 1 && forall f :: 0 <= f < |c.frames| ==> c.frames[f].id == f + 1
    decreases |es|
  {
    hide Judge;
    if es != [] {
      FrameIds(cfg, pinned, es[..|es| - 1]);
    }
  }

  // ---- first contact -----------------------------------------------------------------------

  /** Nobody else changes the pin. */
  ghost predicate Undisturbed(es: seq<Event>) {
    forall i :: 0 <= i < |es| ==> !es[i].PinChangedElsewhere?
  }

  /** 1 while the callback is running. */
  function Calling(c: Client): nat {
    if c.verifyInFlight.Some? && c.verifyInFlight.value < |c.handshakes|
       && c.handshakes[c.verifyInFlight.value].progress.Pinning? then 1 else 0
  }

  /** Each call of the callback stores a fingerprint, throws, or is still running. */
  ghost predicate Accounted(c: Client) {
    c.contacts == c.pinWrites + c.contactThrows + Calling(c)
  }

  lemma StepAccounted(cfg: Config, c: Client, e: Event)
    requires Safe(cfg, c) && Accounted(c)
    ensures Accounted(Step(cfg, c, e))
  {
    hide Proven, SomeProven, HandshakeInvariant, CallsSafe;
  }

  /** What reading the pin back gives: the callback runs, and a fingerprint is stored, only
      while nothing is pinned. */
  ghost predicate PinOnce(c: Client, first: Option<string>) {
    && c.pinWrites <= 1
    && (first.Some? ==> c.pinned == first && c.contacts == 0)
    && (c.pinned.Some? ==> Calling(c) == 0 && (c.pinWrites == 1 || first.Some?))
    && (c.pinWrites == 1 ==> c.pinned.Some?)
  }

  lemma StepPins(cfg: Config, c: Client, e: Event, first: Option<string>)
    requires cfg.hasGetPinned && Safe(cfg, c) && Accounted(c) && PinOnce(c, first) && !e.PinChangedElsewhere?
    ensures PinOnce(Step(cfg, c, e), first)
  {
    hide Proven, SomeProven, HandshakeInvariant, CallsSafe;
  }

  lemma {:induction false} AlwaysAccounted(cfg: Config, pinned: Option<string>, es: seq<Event>)
    ensures Accounted(Run(cfg, Initial(pinned), es))
    decreases |es|
  {
    hide Safe, Step, Accounted;
    if es == [] {
      NothingCalled(pinned);
    } else {
      AlwaysAccounted(cfg, pinned, es[..|es| - 1]);
      AlwaysSafe(cfg, pinned, es[..|es| - 1]);
      StepAccounted(cfg, Run(cfg, Initial(pinned), es[..|es| - 1]), es[|es| - 1]);
    }
  }

  lemma NothingCalled(pinned: Option<string>)
    ensures Accounted(Initial(pinned)) && PinOnce(Initial(pinned), pinned)
  {
    assert Calling(Initial(pinned)) == 0;
  }

  lemma {:induction false} PinnedOnce(cfg: Config, pinned: Option<string>, es: seq<Event>)
    requires cfg.hasGetPinned && Undisturbed(es)
    ensures PinOnce(Run(cfg, Initial(pinned), es), pinned)
    decreases |es|
  {
    hide Safe, Step, Accounted, PinOnce;
    if es == [] {
      NothingCalled(pinned);
    } else {
      PinnedOnce(cfg, pinned, es[..|es| - 1]);
      AlwaysSafe(cfg, pinned, es[..|es| - 1]);
      AlwaysAccounted(cfg, pinned, es[..|es| - 1]);
      StepPins(cfg, Run(cfg, Initial(pinned), es[..|es| - 1]), es[|es| - 1], pinned);
    }
  }

  lemma {:induction false} NeverCalled(cfg: Config, pinned: Option<string>, es: seq<Event>)
    requires !cfg.hasOnFirstContact
    ensures var c := Run(cfg, Initial(pinned), es);
            c.contacts == c.pinWrites == 0 && forall h :: 0 <= h < |c.handshakes| ==> !c.handshakes[h].progress.Pinning?
    decreases |es|
  {
    if es != [] {
      NeverCalled(cfg, pinned, es[..|es| - 1]);
    }
  }

  /** A reply that this handshake accepts. */
  predicate Verifies(cfg: Config, nonce: string, r: Reply) {
    r.Identity? && r.signature != "" && r.publicKey != ""
    && cfg.verify(r.publicKey, nonce, r.sessionStartMs, r.signature)
  }

  /** A nonce, and the reply to it. */
  datatype Exchange = Exchange(nonce: string, reply: Reply)

  ghost predicate AllVerify(cfg: Config, xs: seq<Exchange>) {
    forall i :: 0 <= i < |xs| ==> Verifies(cfg, xs[i].nonce, xs[i].reply)
  }

  /** A handshake whose callback stores the fingerprint or throws, and which settles
      before the call waiting for it resumes. */
  function Round(h: nat, x: Exchange, ok: bool): seq<Event> {
    [Invoke(true, x.nonce), ReplyArrives(h, x.reply), PinRead(h, true), PinStored(h, ok), Settle(h)]
  }

  function Rounds(xs: seq<Exchange>, ok: bool): seq<Event> {
    if xs == [] then [] else Rounds(xs[..|xs| - 1], ok) + Round(|xs| - 1, xs[|xs| - 1], ok)
  }

  /** After n such handshakes, each of which called the callback. */
  ghost predicate AfterRounds(c: Client, n: nat, ok: bool) {
    && |c.handshakes| == n && c.verifyInFlight.None? && c.verifiedFingerprint.None?
    && c.contacts == n
    && c.pinWrites == (if ok then n else 0)
    && c.contactThrows == (if ok then 0 else n)
    && (!ok ==> c.pinned.None?)
    && (ok ==> forall h :: 0 <= h < n ==> c.handshakes[h].progress.Succeeded?)
  }

  lemma OneRound(cfg: Config, c: Client, x: Exchange, ok: bool)
    requires cfg.hasOnFirstContact && (ok ==> !cfg.hasGetPinned) && Verifies(cfg, x.nonce, x.reply)
    requires AfterRounds(c, |c.handshakes|, ok)
    ensures var n := |c.handshakes|;
            var d := Step(cfg, Step(cfg, Step(cfg, Step(cfg, Step(cfg, c,
                       Invoke(true, x.nonce)), ReplyArrives(n, x.reply)), PinRead(n, true)), PinStored(n, ok)),
                       Settle(n));
            AfterRounds(d, n + 1, ok)
  {}

  lemma RunFive(cfg: Config, pinned: Option<string>, es: seq<Event>, a: Event, b: Event, c: Event, d: Event, e: Event)
    ensures Run(cfg, Initial(pinned), es + [a, b, c, d, e])
         == Step(cfg, Step(cfg, Step(cfg, Step(cfg, Step(cfg, Run(cfg, Initial(pinned), es), a), b), c), d), e)
  {
    hide Run, Step;
    RunSnoc(cfg, pinned, es, a);
    RunSnoc(cfg, pinned, es + [a], b);
    RunSnoc(cfg, pinned, es + [a] + [b], c);
    RunSnoc(cfg, pinned, es + [a] + [b] + [c], d);
    RunSnoc(cfg, pinned, es + [a] + [b] + [c] + [d], e);
    assert es + [a, b, c, d, e] == es + [a] + [b] + [c] + [d] + [e];
  }

  lemma {:induction false} ManyRounds(cfg: Config, pinned: Option<string>, xs: seq<Exchange>, ok: bool)
    requires cfg.hasOnFirstContact && (if ok then !cfg.hasGetPinned else pinned.None?) && AllVerify(cfg, xs)
    ensures Undisturbed(Rounds(xs, ok))
    ensures AfterRounds(Run(cfg, Initial(pinned), Rounds(xs, ok)), |xs|, ok)
    decreases |xs|
  {
    hide Step;
    if xs != [] {
      var n := |xs| - 1;
      var x := xs[n];
      ManyRounds(cfg, pinned, xs[..n], ok);
      var es := Rounds(xs[..n], ok);
      OneRound(cfg, Run(cfg, Initial(pinned), es), x, ok);
      RunFive(cfg, pinned, es, Invoke(true, x.nonce), ReplyArrives(n, x.reply), PinRead(n, true), PinStored(n, ok),
              Settle(n));
    }
  }

  /** Nobody else changing the pin, and given replies that verify to two nonces: every run
      stores at most one fingerprint, and calls the callback at most once more than it
      throws, exactly when the pin is read back or there is no callback. */
  lemma StoredAtMostOnceIff(cfg: Config, pinned: Option<string>, x: Exchange, y: Exchange)
    requires Verifies(cfg, x.nonce, x.reply) && Verifies(cfg, y.nonce, y.reply)
    ensures (forall es :: Undisturbed(es) ==> Run(cfg, Initial(pinned), es).pinWrites <= 1)
       <==> cfg.hasGetPinned || !cfg.hasOnFirstContact
    ensures (forall es :: Undisturbed(es) ==>
               Run(cfg, Initial(pinned), es).contacts <= Run(cfg, Initial(pinned), es).contactThrows + 1)
       <==> cfg.hasGetPinned || !cfg.hasOnFirstContact
  {
    hide Run;
    if cfg.hasGetPinned || !cfg.hasOnFirstContact {
      forall es | Undisturbed(es)
        ensures Run(cfg, Initial(pinned), es).pinWrites <= 1
        ensures Run(cfg, Initial(pinned), es).contacts <= Run(cfg, Initial(pinned), es).contactThrows + 1
      {
        AlwaysAccounted(cfg, pinned, es);
        if cfg.hasGetPinned {
          PinnedOnce(cfg, pinned, es);
        } else {
          NeverCalled(cfg, pinned, es);
        }
      }
    } else {
      ManyRounds(cfg, pinned, [x, y], true);
      var es := Rounds([x, y], true);
      assert Undisturbed(es) && Run(cfg, Initial(pinned), es).pinWrites == 2;
    }
  }

  /** A second handshake does begin after one succeeded, whatever the callbacks. */
  lemma SecondHandshakeBegins(cfg: Config, x: Exchange, nonce: string)
    requires Verifies(cfg, x.nonce, x.reply)
    ensures var es := Round(0, x, true);
            SomeProven(Run(cfg, Initial(None), es))
            && |Run(cfg, Initial(None), es + [Invoke(true, nonce)]).handshakes| == 2
  {
    var es := Round(0, x, true);
    assert [] + es == es;
    RunFive(cfg, None, [], Invoke(true, x.nonce), ReplyArrives(0, x.reply), PinRead(0, true), PinStored(0, true),
            Settle(0));
    RunNothing(cfg, None);
    RunSnoc(cfg, None, es, Invoke(true, nonce));
    AfterOne(cfg, x);
  }

  lemma AfterOne(cfg: Config, x: Exchange)
    requires Verifies(cfg, x.nonce, x.reply)
    ensures var c := Step(cfg, Step(cfg, Step(cfg, Step(cfg, Step(cfg, Initial(None),
                       Invoke(true, x.nonce)), ReplyArrives(0, x.reply)), PinRead(0, true)), PinStored(0, true)),
                       Settle(0));
            |c.handshakes| == 1 && c.handshakes[0].progress.Succeeded? && c.verifyInFlight.None?
            && c.verifiedFingerprint.None?
  {}

  // ---- trust on first use -------------------------------------------------------------------

  /** Every handshake that succeeded has the stored fingerprint, and with a pin stored no
      other is about to be. */
  ghost predicate Trusts(c: Client) {
    && (forall h :: 0 <= h < |c.handshakes| && c.handshakes[h].progress.Succeeded? ==>
          c.pinned == Some(c.handshakes[h].progress.fingerprint))
    && (c.pinned.Some? ==> forall h :: 0 <= h < |c.handshakes| ==> !c.handshakes[h].progress.Pinning?)
  }

  lemma StepTrusts(cfg: Config, c: Client, e: Event)
    requires cfg.hasGetPinned && (cfg.hasOnFirstContact || c.pinned.Some?) && !e.PinChangedElsewhere?
    requires HandshakesSafe(cfg, c) && Trusts(c)
    ensures Trusts(Step(cfg, c, e))
    ensures c.pinned.Some? ==> Step(cfg, c, e).pinned == c.pinned
  {
    hide HandshakeInvariant;
  }

  /** Trust on first use, over any run in which the pin is read back and nobody else changes
      it. With a pin stored at the start, or a callback that stores one: every handshake
      that succeeded, and the client when it is verified, has the stored fingerprint; and a
      pin once stored stays, so that all of them agree. */
  lemma {:induction false} OneFingerprint(cfg: Config, pinned: Option<string>, es: seq<Event>)
    requires cfg.hasGetPinned && (cfg.hasOnFirstContact || pinned.Some?) && Undisturbed(es)
    ensures var c := Run(cfg, Initial(pinned), es);
            (forall h :: 0 <= h < |c.handshakes| && c.handshakes[h].progress.Succeeded? ==>
               c.pinned == Some(c.handshakes[h].progress.fingerprint))
            && (c.verifiedFingerprint.Some? ==> c.pinned == c.verifiedFingerprint)
            && (pinned.Some? ==> c.pinned == pinned)
  {
    AlwaysTrusts(cfg, pinned, es);
    AlwaysSafe(cfg, pinned, es);
    var c := Run(cfg, Initial(pinned), es);
    if c.verifiedFingerprint.Some? {
      var h :| 0 <= h < |c.handshakes| && c.handshakes[h].progress == Succeeded(c.verifiedFingerprint.value);
    }
  }

  lemma {:induction false} AlwaysTrusts(cfg: Config, pinned: Option<string>, es: seq<Event>)
    requires cfg.hasGetPinned && (cfg.hasOnFirstContact || pinned.Some?) && Undisturbed(es)
    ensures Trusts(Run(cfg, Initial(pinned), es))
    ensures pinned.Some? ==> Run(cfg, Initial(pinned), es).pinned == pinned
    decreases |es|
  {
    hide Step, Trusts, HandshakesSafe, CallsSafe;
    if es == [] {
      NothingTrusted(pinned);
    } else {
      AlwaysTrusts(cfg, pinned, es[..|es| - 1]);
      AlwaysSafe(cfg, pinned, es[..|es| - 1]);
      StepTrusts(cfg, Run(cfg, Initial(pinned), es[..|es| - 1]), es[|es| - 1]);
    }
  }

  lemma NothingTrusted(pinned: Option<string>)
    ensures Trusts(Initial(pinned))
  {}

  /** In particular no sensitive call of a client with a pin gets past the gate but after a
      handshake with that very fingerprint. */
  lemma PinnedCallsAreGated(cfg: Config, pin: string, es: seq<Event>, k: nat)
    requires cfg.hasGetPinned && Undisturbed(es)
    requires var c := Run(cfg, Initial(Some(pin)), es);
             k < |c.calls| && PastGate(c.calls[k])
    ensures var c := Run(cfg, Initial(Some(pin)), es);
            exists h ::
              0 <= h < |c.handshakes| && Genuine(cfg, c.handshakes[h]) && c.handshakes[h].progress == Succeeded(pin)
  {
    hide Run, SawStorage;
    SensitiveCallsAreGated(cfg, Some(pin), es, k);
    OneFingerprint(cfg, Some(pin), es);
  }

  /** With the pin read back: a client that found no pin has stored one exactly when some
      handshake succeeded, and one that found a pin never calls the callback. */
  lemma {:induction false} FirstContactExact(cfg: Config, pinned: Option<string>, es: seq<Event>)
    requires cfg.hasGetPinned && cfg.hasOnFirstContact && Undisturbed(es)
    ensures var c := Run(cfg, Initial(pinned), es);
            (pinned.None? ==> (c.pinWrites == 1 <==> SomeProven(c)) && c.pinWrites <= 1)
            && (pinned.Some? ==> c.contacts == 0 && c.pinned == pinned)
    decreases |es|
  {
    hide Step, Safe, Accounted, SomeProven;
    PinnedOnce(cfg, pinned, es);
    if es == [] {
      NoneProven(pinned);
    } else {
      var n := |es| - 1;
      FirstContactExact(cfg, pinned, es[..n]);
      PinnedOnce(cfg, pinned, es[..n]);
      AlwaysSafe(cfg, pinned, es[..n]);
      if pinned.None? {
        StepProves(cfg, Run(cfg, Initial(pinned), es[..n]), es[n]);
      }
    }
  }

  lemma NoneProven(pinned: Option<string>)
    ensures !SomeProven(Initial(pinned))
  {}

  lemma StepProves(cfg: Config, c: Client, e: Event)
    requires cfg.hasGetPinned && cfg.hasOnFirstContact && !e.PinChangedElsewhere? && Safe(cfg, c) && PinOnce(c, None)
    requires c.pinWrites == 1 <==> SomeProven(c)
    requires Step(cfg, c, e).pinWrites <= 1
    ensures var d := Step(cfg, c, e);
            d.pinWrites == 1 <==> SomeProven(d)
  {
    hide Proven, SomeProven, HandshakeInvariant, CallsSafe, HandshakesSafe;
    var d := Step(cfg, c, e);
    StepKeeps(cfg, c, e);
    ProvenStays(c, d, "");
    if d.pinWrites == 1 && c.pinWrites == 0 {
      assert e.PinStored? && d.handshakes[e.handshake].progress.Succeeded?;
      Witness(d, e.handshake);
    }
    if c.pinWrites == 0 && d.pinWrites == 0 {
      NotProven(c, d);
    }
  }

  lemma NotProven(c: Client, d: Client)
    requires !SomeProven(c)
    requires forall h :: 0 <= h < |d.handshakes| && d.handshakes[h].progress.Succeeded?
               ==> h < |c.handshakes| && c.handshakes[h].progress.Succeeded?
    ensures !SomeProven(d)
  {}

  /** A callback that throws is called again by the next handshake, any number of times. */
  lemma ThrowingCallbackCalledAgain(cfg: Config, xs: seq<Exchange>)
    requires cfg.hasOnFirstContact && AllVerify(cfg, xs)
    ensures var c := Run(cfg, Initial(None), Rounds(xs, false));
            Undisturbed(Rounds(xs, false)) && c.contacts == c.contactThrows == |xs| && c.pinWrites == 0
  {
    ManyRounds(cfg, None, xs, false);
  }
}
