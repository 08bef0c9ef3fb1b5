/**
 The agent client's session refresh: a timer two minutes before expiry, a bounded
 retry schedule, and exchanges that overlap with connect and disconnect. Every await
 is a separate event, and events come in any order.
 */
module Refresh {
  import opened Basics

  const RETRY_SCHEDULE_MS: seq<int> := [30_000, 60_000, 120_000, 240_000, 300_000]
  const REFRESH_LEAD_MS := 120_000

  datatype Caller = FromConnect | FromRefresh(attempt: nat)

  /** An exchange: running, or succeeded with its caller not yet resumed. */
  datatype Exchange = Running(caller: Caller) | Succeeded(caller: Caller)

  datatype Timer = Timer(deadline: int, attempt: nat)

  datatype Agent = Agent(
    /** The handle in `refreshTimer`, which may be of a timer that has fired. */
    refreshTimer: Option<nat>,
    sessionExpired: bool,
    lastExpiresAtMs: int,
    /** The timers the event loop still has to fire. */
    armed: map<nat, Timer>,
    nextHandle: nat,
    exchanges: map<nat, Exchange>,
    nextExchange: nat)

  datatype Event =
    | Connect
    | ExchangeSucceeds(exchange: nat, expiresAtMs: int)
    | CallerResumes(exchange: nat, now: int)
    | ExchangeFails(exchange: nat, now: int, callbackThrows: bool)
    | Fire(handle: nat, now: int)
    | Disconnect

  function Initial(): Agent {
    Agent(None, false, 0, map[], 0, map[], 0)
  }

  function Disarm(a: Agent): Agent {
    match a.refreshTimer
    case Some(h) => a.(armed := a.armed - {h})
    case None => a
  }

  function Arm(a: Agent, deadline: int, attempt: nat): Agent {
    var d := Disarm(a);
    d.(refreshTimer := Some(d.nextHandle), armed := d.armed[d.nextHandle := Timer(deadline, attempt)],
       nextHandle := d.nextHandle + 1)
  }

  function Begin(a: Agent, caller: Caller): Agent {
    a.(exchanges := a.exchanges[a.nextExchange := Running(caller)], nextExchange := a.nextExchange + 1)
  }

  function Step(a: Agent, e: Event): Agent {
    match e
    case Connect => Begin(a.(sessionExpired := false), FromConnect)
    case ExchangeSucceeds(x, expiresAtMs) =>
      if x in a.exchanges && a.exchanges[x].Running? then
        a.(lastExpiresAtMs := expiresAtMs, exchanges := a.exchanges[x := Succeeded(a.exchanges[x].caller)])
      else a
    case CallerResumes(x, now) =>
      if x in a.exchanges && a.exchanges[x].Succeeded? then
        Arm(a.(exchanges := a.exchanges - {x}), now + Max(0, a.lastExpiresAtMs - now - REFRESH_LEAD_MS), 0)
      else a
    case ExchangeFails(x, now, callbackThrows) =>
      if x in a.exchanges && a.exchanges[x].Running? then
        var b := a.(exchanges := a.exchanges - {x});
        match a.exchanges[x].caller
        case FromConnect => b
        case FromRefresh(attempt) =>
          if callbackThrows then b
          else if attempt >= |RETRY_SCHEDULE_MS| then b.(sessionExpired := true)
          else Arm(b, now + RETRY_SCHEDULE_MS[attempt], attempt + 1)
      else a
    case Fire(h, now) =>
      if h in a.armed && a.armed[h].deadline <= now then
        Begin(a.(armed := a.armed - {h}), FromRefresh(a.armed[h].attempt))
      else a
    case Disconnect => Disarm(a).(refreshTimer := None)
  }

  // ---- the object --------------------------------------------------------------------

  class AgentClient {
    var refreshTimer: Option<nat>
    var sessionExpired: bool
    var lastExpiresAtMs: int
    var armed: map<nat, Timer>
    var nextHandle: nat
    var exchanges: map<nat, Exchange>
    var nextExchange: nat

    ghost function State(): Agent
      reads this
    {
      Agent(refreshTimer, sessionExpired, lastExpiresAtMs, armed, nextHandle, exchanges, nextExchange)
    }

    constructor ()
      ensures State() == Initial()
    {
      refreshTimer, sessionExpired, lastExpiresAtMs := None, false, 0;
      armed, nextHandle, exchanges, nextExchange := map[], 0, map[], 0;
    }

    method ArmTimer(deadline: int, attempt: nat)
      modifies this
      ensures State() == Arm(old(State()), deadline, attempt)
    {
      if refreshTimer.Some? {
        armed := armed - {refreshTimer.value};
      }
      armed := armed[nextHandle := Timer(deadline, attempt)];
      refreshTimer := Some(nextHandle);
      nextHandle := nextHandle + 1;
    }

    method BeginExchange(caller: Caller)
      modifies this
      ensures State() == Begin(old(State()), caller)
    {
      exchanges := exchanges[nextExchange := Running(caller)];
      nextExchange := nextExchange + 1;
    }

    method ConnectBegins()
      modifies this
      ensures State() == Step(old(State()), Connect)
    {
      sessionExpired := false;
      BeginExchange(FromConnect);
    }

    method ExchangeCompletes(x: nat, expiresAtMs: int)
      requires x in exchanges && exchanges[x].Running?
      modifies this
      ensures State() == Step(old(State()), ExchangeSucceeds(x, expiresAtMs))
    {
      lastExpiresAtMs := expiresAtMs;
      exchanges := exchanges[x := Succeeded(exchanges[x].caller)];
    }

    method ScheduleRefreshFromExpiry(x: nat, now: int)
      requires x in exchanges && exchanges[x].Succeeded?
      modifies this
      ensures State() == Step(old(State()), CallerResumes(x, now))
    {
      exchanges := exchanges - {x};
      var refreshDelay := Max(0, lastExpiresAtMs - now - REFRESH_LEAD_MS);
      ArmTimer(now + refreshDelay, 0);
    }

    method ExchangeThrows(x: nat, now: int, callbackThrows: bool)
      requires x in exchanges && exchanges[x].Running?
      modifies this
      ensures State() == Step(old(State()), ExchangeFails(x, now, callbackThrows))
    {
      var caller := exchanges[x].caller;
      exchanges := exchanges - {x};
      if caller.FromConnect? || callbackThrows {
        return;
      }
      if caller.attempt >= |RETRY_SCHEDULE_MS| {
        sessionExpired := true;
        return;
      }
      ArmTimer(now + RETRY_SCHEDULE_MS[caller.attempt], caller.attempt + 1);
    }

    method TimerFires(h: nat, now: int)
      requires h in armed && armed[h].deadline <= now
      modifies this
      ensures State() == Step(old(State()), Fire(h, now))
    {
      var attempt := armed[h].attempt;
      armed := armed - {h};
      BeginExchange(FromRefresh(attempt));
    }

    method DisconnectNow()
      modifies this
      ensures State() == Step(old(State()), Disconnect)
    {
      if refreshTimer.Some? {
        armed := armed - {refreshTimer.value};
        refreshTimer := None;
      }
    }

  }

  // ---- every interleaving ----------------------------------------------------------------

  function Run(es: seq<Event>): Agent {
    if es == [] then Initial() else Step(Run(es[..|es| - 1]), es[|es| - 1])
  }

  ghost predicate OneTimer(a: Agent) {
    && (forall h :: h in a.armed ==> a.refreshTimer == Some(h) && h < a.nextHandle)
    && (forall x :: x in a.exchanges ==> x < a.nextExchange)
  }

  lemma StepOneTimer(a: Agent, e: Event)
    requires OneTimer(a)
    ensures OneTimer(Step(a, e))
  {}

  /** In every interleaving at most one refresh timer is armed, and it is the one that
      `refreshTimer` holds, so that disconnect always clears it. */
  lemma {:induction false} AtMostOneTimer(es: seq<Event>, g: nat, h: nat)
    ensures OneTimer(Run(es))
    ensures g in Run(es).armed && h in Run(es).armed ==> g == h
    ensures Step(Run(es), Disconnect).armed == map[]
  {
    AlwaysOneTimer(es);
  }

  lemma {:induction false} AlwaysOneTimer(es: seq<Event>)
    ensures OneTimer(Run(es))
  {
    hide Step;
    if es != [] {
      AlwaysOneTimer(es[..|es| - 1]);
      StepOneTimer(Run(es[..|es| - 1]), es[|es| - 1]);
    }
  }

  // ---- stopping the loop ---------------------------------------------------------------------

  ghost predicate NoConnect(es: seq<Event>) {
    forall i :: 0 <= i < |es| ==> !es[i].Connect?
  }

  /** However things go on, short of connecting again, no timer is armed. */
  ghost predicate StaysStopped(es: seq<Event>) {
    forall fs: seq<Event> :: NoConnect(fs) ==> Run(es + fs).armed == map[]
  }

  ghost predicate Quiet(a: Agent) {
    a.armed == map[] && a.exchanges == map[]
  }

  lemma RunSnoc(es: seq<Event>, e: Event)
    ensures Run(es + [e]) == Step(Run(es), e)
  {
    assert (es + [e])[..|es|] == es;
  }

  /** With nothing armed and nothing in flight, nothing happens until the next connect. */
  lemma {:induction false} QuietStays(es: seq<Event>, fs: seq<Event>)
    requires Quiet(Run(es)) && NoConnect(fs)
    ensures Quiet(Run(es + fs)) && Run(es + fs).sessionExpired == Run(es).sessionExpired
    decreases |fs|
  {
    if fs == [] {
      assert es + fs == es;
    } else {
      var n := |fs| - 1;
      QuietStays(es, fs[..n]);
      assert es + fs == (es + fs[..n]) + [fs[n]];
      RunSnoc(es + fs[..n], fs[n]);
    }
  }

  /** Disconnecting stops the refresh loop for good exactly when no exchange is in flight:
      one that is arms a timer when it succeeds. */
  lemma DisconnectStopsIff(es: seq<Event>)
    ensures StaysStopped(es + [Disconnect]) <==> Run(es).exchanges == map[]
  {
    hide Run;
    var ds := es + [Disconnect];
    AlwaysOneTimer(es);
    RunSnoc(es, Disconnect);
    if Run(es).exchanges == map[] {
      forall fs | NoConnect(fs)
        ensures Run(ds + fs).armed == map[]
      {
        QuietStays(ds, fs);
      }
    } else {
      var x :| x in Run(es).exchanges;
      var fs := ToArm(Run(es).exchanges[x], x);
      assert NoConnect(fs);
      ExchangeArms(ds, x);
      assert Run(ds + fs).armed != map[];
    }
  }

  /** What is left of an exchange that succeeds. */
  function ToArm(e: Exchange, x: nat): seq<Event> {
    if e.Running? then [ExchangeSucceeds(x, 0), CallerResumes(x, 0)] else [CallerResumes(x, 0)]
  }

  lemma ExchangeArms(es: seq<Event>, x: nat)
    requires x in Run(es).exchanges
    ensures Run(es + ToArm(Run(es).exchanges[x], x)).armed != map[]
  {
    hide Run;
    var fs := ToArm(Run(es).exchanges[x], x);
    var s := if Run(es).exchanges[x].Running? then es + [ExchangeSucceeds(x, 0)] else es;
    RunSnoc(es, ExchangeSucceeds(x, 0));
    RunSnoc(s, CallerResumes(x, 0));
    assert es + fs == s + [CallerResumes(x, 0)];
    assert Run(es + fs).nextHandle - 1 in Run(es + fs).armed;
  }

  /** Once expired, the client rejects every call until connect is called again, whatever
      happens, and connect always clears it. */
  lemma {:induction false} RejectedUntilConnect(es: seq<Event>, fs: seq<Event>)
    requires Run(es).sessionExpired && NoConnect(fs)
    ensures Run(es + fs).sessionExpired && !Run(es + fs + [Connect]).sessionExpired
    decreases |fs|
  {
    hide Run;
    RunSnoc(es + fs, Connect);
    if fs == [] {
      assert es + fs == es;
    } else {
      var n := |fs| - 1;
      RejectedUntilConnect(es, fs[..n]);
      assert es + fs == (es + fs[..n]) + [fs[n]];
      RunSnoc(es + fs[..n], fs[n]);
    }
  }

  // ---- exhaustion ----------------------------------------------------------------------------

  function NextFailures(a: Agent, e: Event, n: nat): nat {
    match e
    case Connect => 0
    case ExchangeSucceeds(x, _) => if x in a.exchanges && a.exchanges[x].Running? then 0 else n
    case ExchangeFails(x, _, _) =>
      if x in a.exchanges && a.exchanges[x].Running? && a.exchanges[x].caller.FromRefresh? then n + 1 else n
    case _ => n
  }

  /** Background failures since the last connect or successful exchange. */
  function Failures(es: seq<Event>): nat {
    if es == [] then 0 else NextFailures(Run(es[..|es| - 1]), es[|es| - 1], Failures(es[..|es| - 1]))
  }

  /** The attempt of the timer that is armed; 0 if none is. */
  function TimerAttempt(a: Agent): nat {
    if a.refreshTimer.Some? && a.refreshTimer.value in a.armed then a.armed[a.refreshTimer.value].attempt else 0
  }

  function NextCarried(a: Agent, e: Event, n: nat): nat {
    match e
    case Connect => TimerAttempt(a)
    case ExchangeSucceeds(x, _) => if x in a.exchanges && a.exchanges[x].Running? then 0 else n
    case _ => n
  }

  /** The attempt of the timer that was armed when connect was last called, which connect
      leaves in place; 0 if there was none, or an exchange has succeeded since. */
  function Carried(es: seq<Event>): nat {
    if es == [] then 0 else NextCarried(Run(es[..|es| - 1]), es[|es| - 1], Carried(es[..|es| - 1]))
  }

  /** No two exchanges overlap: connect and disconnect are called, and the timer fires,
      only with nothing in flight; and the error callback does not throw. */
  ghost predicate Orderly(a: Agent, e: Event) {
    match e
    case Connect => a.exchanges == map[]
    case Disconnect => a.exchanges == map[]
    case Fire(_, _) => a.exchanges == map[]
    case ExchangeFails(_, _, callbackThrows) => !callbackThrows
    case _ => true
  }

  ghost predicate OrderlyRun(es: seq<Event>) {
    forall i :: 0 <= i < |es| ==> Orderly(Run(es[..i]), es[i])
  }

  const MAX_FAILURES: nat := 6

  /** With n failures counted and c carried over. */
  ghost predicate Counted(a: Agent, n: nat, c: nat) {
    && OneTimer(a)
    && (a.sessionExpired <==> n + c == MAX_FAILURES)
    && n + c <= MAX_FAILURES
    && (forall x, y :: x in a.exchanges && y in a.exchanges ==> x == y)
    && (forall h :: h in a.armed ==>
          a.armed[h].attempt < MAX_FAILURES
          && (a.armed[h].attempt == n + c || exists x :: x in a.exchanges && a.exchanges[x].Succeeded?))
    && (forall x :: x in a.exchanges ==>
          match a.exchanges[x]
          case Running(FromConnect) => n == 0 && c < MAX_FAILURES
          case Running(FromRefresh(attempt)) => attempt == n + c < MAX_FAILURES && a.armed == map[]
          case Succeeded(_) => n == c == 0)
  }

  lemma StepCounted(a: Agent, e: Event, n: nat, c: nat)
    requires Counted(a, n, c) && Orderly(a, e)
    ensures Counted(Step(a, e), NextFailures(a, e, n), NextCarried(a, e, c))
  {
    assert |RETRY_SCHEDULE_MS| == 5;
    StepOneTimer(a, e);
    match e
    case Connect =>
    case Disconnect =>
    case Fire(h, now) =>
      if h in a.armed && a.armed[h].deadline <= now {
        assert a.armed - {h} == map[];
      }
    case ExchangeSucceeds(x, expiresAtMs) =>
      if x in a.exchanges && a.exchanges[x].Running? {
        var b := Step(a, e);
        assert x in b.exchanges && b.exchanges[x].Succeeded?;
      }
    case CallerResumes(x, now) =>
      if x in a.exchanges {
        assert a.exchanges - {x} == map[];
      }
    case ExchangeFails(x, now, _) =>
      if x in a.exchanges {
        assert a.exchanges - {x} == map[];
      }
  }

  lemma {:induction false} AlwaysCounted(es: seq<Event>)
    requires OrderlyRun(es)
    ensures Counted(Run(es), Failures(es), Carried(es))
    decreases |es|
  {
    hide Step, Counted, Orderly;
    if es == [] {
      InitiallyCounted();
    } else {
      var n := |es| - 1;
      assert forall i :: 0 <= i < n ==> es[..n][i] == es[i] && es[..n][..i] == es[..i];
      AlwaysCounted(es[..n]);
      assert Orderly(Run(es[..n]), es[n]);
      StepCounted(Run(es[..n]), es[n], Failures(es[..n]), Carried(es[..n]));
    }
  }

  lemma InitiallyCounted()
    ensures Counted(Initial(), 0, 0)
  {}

  /** Without overlaps the session is expired exactly after six consecutive background
      failures since the last connect or success, less the attempts that connect left
      pending; then no timer is armed and nothing is in flight. So the count is six
      whenever connect was called with no retry pending, or has succeeded since. */
  lemma ExpiredExactly(es: seq<Event>)
    requires OrderlyRun(es)
    ensures Run(es).sessionExpired <==> Failures(es) + Carried(es) == 6
    ensures Carried(es) == 0 ==> (Run(es).sessionExpired <==> Failures(es) == 6)
    ensures Run(es).sessionExpired ==> Run(es).armed == map[] && Run(es).exchanges == map[]
  {
    AlwaysCounted(es);
    var a := Run(es);
    if a.sessionExpired {
      assert forall x :: x !in a.exchanges;
      assert forall h :: h !in a.armed;
    }
  }

  /** A callback that throws ends the loop silently: no timer is armed and the session
      does not expire, until connect is called again. */
  lemma ThrowingCallbackStops(es: seq<Event>, x: nat, now: int, fs: seq<Event>)
    requires OrderlyRun(es) && x in Run(es).exchanges && Run(es).exchanges[x].Running?
    requires Run(es).exchanges[x].caller.FromRefresh? && NoConnect(fs)
    ensures var gs := es + [ExchangeFails(x, now, true)] + fs;
            Run(gs).armed == map[] && !Run(gs).sessionExpired
  {
    hide Run;
    AlwaysCounted(es);
    RunSnoc(es, ExchangeFails(x, now, true));
    assert Run(es).exchanges - {x} == map[];
    QuietStays(es + [ExchangeFails(x, now, true)], fs);
  }

  // ---- failing again and again -----------------------------------------------------------------

  ghost predicate HasTimer(a: Agent) {
    a.refreshTimer.Some? && a.refreshTimer.value in a.armed
  }

  /** The next attempt, as soon as it is due, and its failure at once. */
  function FailNow(a: Agent): seq<Event> {
    if a.refreshTimer.Some? && a.refreshTimer.value in a.armed then
      var h, now := a.refreshTimer.value, a.armed[a.refreshTimer.value].deadline;
      [Fire(h, now), ExchangeFails(a.nextExchange, now, false)]
    else []
  }

  /** The run continued with m failing attempts. */
  function FailMore(es: seq<Event>, m: nat): seq<Event> {
    if m == 0 then es else FailMore(es, m - 1) + FailNow(Run(FailMore(es, m - 1)))
  }

  lemma OrderlySnoc(es: seq<Event>, e: Event)
    requires OrderlyRun(es) && Orderly(Run(es), e)
    ensures OrderlyRun(es + [e])
  {
    forall i | 0 <= i < |es + [e]|
      ensures Orderly(Run((es + [e])[..i]), (es + [e])[i])
    {
      assert (es + [e])[..i] == es[..i];
      if i == |es| {
        assert es[..i] == es;
      }
    }
  }

  lemma CountsSnoc(es: seq<Event>, e: Event)
    ensures Failures(es + [e]) == NextFailures(Run(es), e, Failures(es))
    ensures Carried(es + [e]) == NextCarried(Run(es), e, Carried(es))
  {
    assert (es + [e])[..|es|] == es;
  }

  /** An orderly run with a timer armed and nothing in flight. */
  ghost predicate Waiting(es: seq<Event>) {
    OrderlyRun(es) && Run(es).exchanges == map[] && HasTimer(Run(es))
  }

  lemma WaitingAttempt(es: seq<Event>)
    requires Waiting(es)
    ensures TimerAttempt(Run(es)) == Failures(es) + Carried(es) < 6 && !Run(es).sessionExpired
  {
    AlwaysCounted(es);
  }

  /** One more failure: it is counted, and the next retry waits unless it was the last. */
  lemma FailsOnce(es: seq<Event>)
    requires Waiting(es)
    ensures var fs := es + FailNow(Run(es));
            OrderlyRun(fs) && Failures(fs) == Failures(es) + 1 && Carried(fs) == Carried(es)
            && (TimerAttempt(Run(es)) < 5 ==> Waiting(fs))
  {
    hide Run;
    var a := Run(es);
    var h, t := a.refreshTimer.value, a.armed[a.refreshTimer.value].deadline;
    var e, f := Fire(h, t), ExchangeFails(a.nextExchange, t, false);
    assert es + FailNow(a) == es + [e] + [f];
    RunSnoc(es, e);
    RunSnoc(es + [e], f);
    OrderlySnoc(es, e);
    OrderlySnoc(es + [e], f);
    CountsSnoc(es, e);
    CountsSnoc(es + [e], f);
    assert |RETRY_SCHEDULE_MS| == 5;
    assert Run(es + [e]).exchanges == map[a.nextExchange := Running(FromRefresh(a.armed[h].attempt))];
  }

  /** From any timer waiting, the session expires with the last of the failures left. */
  lemma {:induction false} FailsUntilExpiry(es: seq<Event>, m: nat)
    requires Waiting(es) && m + TimerAttempt(Run(es)) <= 6
    ensures var fs := FailMore(es, m);
            OrderlyRun(fs) && Failures(fs) == Failures(es) + m && Carried(fs) == Carried(es)
            && (m + TimerAttempt(Run(es)) < 6 ==> Waiting(fs))
            && (Run(fs).sessionExpired <==> m + TimerAttempt(Run(es)) == 6)
    decreases m
  {
    hide Run, Waiting, TimerAttempt, FailNow;
    WaitingAttempt(es);
    if m > 0 {
      FailsUntilExpiry(es, m - 1);
      WaitingAttempt(FailMore(es, m - 1));
      FailsOnce(FailMore(es, m - 1));
    }
    WaitingRun(es);
    ExpiredExactly(FailMore(es, m));
  }

  lemma WaitingRun(es: seq<Event>)
    requires Waiting(es)
    ensures OrderlyRun(es)
  {}

  /** The run in which connect is called again, and fails. */
  function Reconnected(es: seq<Event>, now: int): seq<Event> {
    es + [Connect] + [ExchangeFails(Run(es).nextExchange, now, false)]
  }

  /** Connecting while attempt k is pending, and failing, leaves that attempt in place: the
      session then expires after 6 - k further failures, and no sooner. So six failures
      since the connect are what it takes exactly when k is 0. */
  lemma ReconnectKeepsOldRetry(es: seq<Event>, now: int)
    requires Waiting(es)
    ensures var fs, k := Reconnected(es, now), TimerAttempt(Run(es));
            (forall m: nat :: m <= 6 - k ==>
               Failures(FailMore(fs, m)) == m && (Run(FailMore(fs, m)).sessionExpired <==> m == 6 - k))
            && ((forall m: nat :: m <= 6 - k
                   ==> (Run(FailMore(fs, m)).sessionExpired <==> Failures(FailMore(fs, m)) == 6))
                <==> k == 0)
  {
    hide Run, FailMore;
    var fs, k := Reconnected(es, now), TimerAttempt(Run(es));
    ReconnectFails(es, now);
    WaitingAttempt(es);
    forall m: nat | m <= 6 - k
      ensures Failures(FailMore(fs, m)) == m && (Run(FailMore(fs, m)).sessionExpired <==> m == 6 - k)
    {
      FailsUntilExpiry(fs, m);
    }
    var last: nat := 6 - k;
    assert Run(FailMore(fs, last)).sessionExpired && Failures(FailMore(fs, last)) == last;
  }

  lemma ReconnectFails(es: seq<Event>, now: int)
    requires Waiting(es)
    ensures var fs := Reconnected(es, now);
            Waiting(fs) && Failures(fs) == 0 && TimerAttempt(Run(fs)) == TimerAttempt(Run(es))
  {
    hide Run;
    var a := Run(es);
    AlwaysOneTimer(es);
    var f := ExchangeFails(a.nextExchange, now, false);
    RunSnoc(es, Connect);
    RunSnoc(es + [Connect], f);
    OrderlySnoc(es, Connect);
    OrderlySnoc(es + [Connect], f);
    CountsSnoc(es, Connect);
    CountsSnoc(es + [Connect], f);
    assert Run(es + [Connect]).exchanges == map[a.nextExchange := Running(FromConnect)];
  }

  /** Such runs exist for every pending attempt from 1 to 5: connected once, k failures,
      a reconnect that fails, and 6 - k more failures expire the session. */
  lemma EarlyExpiry(expiresAtMs: int, now: int, later: int, k: nat)
    requires k <= 5
    ensures var es := FailMore([Connect, ExchangeSucceeds(0, expiresAtMs), CallerResumes(0, now)], k);
            var fs := FailMore(Reconnected(es, later), 6 - k);
            OrderlyRun(fs) && Run(fs).sessionExpired && Failures(fs) == 6 - k
  {
    hide Run, FailMore;
    var es := [Connect, ExchangeSucceeds(0, expiresAtMs), CallerResumes(0, now)];
    ConnectedOnce(expiresAtMs, now);
    FailsUntilExpiry(es, k);
    WaitingAttempt(FailMore(es, k));
    ReconnectFails(FailMore(es, k), later);
    FailsUntilExpiry(Reconnected(FailMore(es, k), later), 6 - k);
  }

  lemma ConnectedOnce(expiresAtMs: int, now: int)
    ensures var es := [Connect, ExchangeSucceeds(0, expiresAtMs), CallerResumes(0, now)];
            Waiting(es) && TimerAttempt(Run(es)) == 0 && Failures(es) == Carried(es) == 0
  {
    hide Run;
    var c, s, r := [Connect], ExchangeSucceeds(0, expiresAtMs), CallerResumes(0, now);
    assert [] + [Connect] == c && c + [s] + [r] == [Connect, s, r];
    RunNothing();
    RunSnoc([], Connect);
    RunSnoc(c, s);
    RunSnoc(c + [s], r);
    OrderlySnoc([], Connect);
    OrderlySnoc(c, s);
    OrderlySnoc(c + [s], r);
    WaitingAttempt(c + [s] + [r]);
  }

  lemma RunNothing()
    ensures Run([]) == Initial()
  {}

  // ---- timing ------------------------------------------------------------------------------------

  /** Delays before attempts 0 to k after the first firing. */
  function Offset(k: nat): int
    requires k <= |RETRY_SCHEDULE_MS|
  {
    if k == 0 then 0 else Offset(k - 1) + RETRY_SCHEDULE_MS[k - 1]
  }

  /** k failing attempts, each as soon as its timer is due, with instantaneous exchanges. */
  function FailTimes(a: Agent, k: nat): Agent
  {
    if k == 0 then a
    else
      var b := FailTimes(a, k - 1);
      match b.refreshTimer
      case Some(h) =>
        if h in b.armed then
          var now := b.armed[h].deadline;
          Step(Step(b, Fire(h, now)), ExchangeFails(b.nextExchange, now, false))
        else b
      case None => b
  }

  /** After an exchange whose token expires two minutes or more from now, attempt k of a
      failing refresh takes place at expiry - 2 min + Offset(k), up to the sixth, which
      exhausts the retries. */
  lemma {:induction false} RetryTimes(a: Agent, x: nat, now: int, k: nat)
    requires OneTimer(a) && x in a.exchanges && a.exchanges[x].Succeeded?
    requires a.lastExpiresAtMs >= now + REFRESH_LEAD_MS && k <= 5
    ensures var b := FailTimes(Step(a, CallerResumes(x, now)), k);
            OneTimer(b) && b.refreshTimer.Some?
            && b.armed == map[b.refreshTimer.value := Timer(a.lastExpiresAtMs - REFRESH_LEAD_MS + Offset(k), k)]
            && b.lastExpiresAtMs == a.lastExpiresAtMs
    decreases k
  {
    hide Step, OneTimer;
    var s := Step(a, CallerResumes(x, now));
    if k == 0 {
      FirstTimer(a, x, now);
    } else {
      RetryTimes(a, x, now, k - 1);
      FailOnce(FailTimes(s, k - 1), k - 1);
    }
  }

  lemma FirstTimer(a: Agent, x: nat, now: int)
    requires OneTimer(a) && x in a.exchanges && a.exchanges[x].Succeeded?
    requires a.lastExpiresAtMs >= now + REFRESH_LEAD_MS
    ensures var b := Step(a, CallerResumes(x, now));
            OneTimer(b) && b.refreshTimer.Some? && b.lastExpiresAtMs == a.lastExpiresAtMs
            && b.armed == map[b.refreshTimer.value := Timer(a.lastExpiresAtMs - REFRESH_LEAD_MS, 0)]
  {
    StepOneTimer(a, CallerResumes(x, now));
  }

  lemma FailOnce(b: Agent, k: nat)
    requires OneTimer(b) && k < 5 && b.refreshTimer.Some? && b.refreshTimer.value in b.armed
    requires b.armed[b.refreshTimer.value].attempt == k
    ensures var h, t := b.refreshTimer.value, b.armed[b.refreshTimer.value].deadline;
            var c := Step(Step(b, Fire(h, t)), ExchangeFails(b.nextExchange, t, false));
            OneTimer(c) && c.refreshTimer.Some? && c.lastExpiresAtMs == b.lastExpiresAtMs
            && c.armed == map[c.refreshTimer.value := Timer(t + RETRY_SCHEDULE_MS[k], k + 1)]
  {
    var h, t := b.refreshTimer.value, b.armed[b.refreshTimer.value].deadline;
    var f := Step(b, Fire(h, t));
    StepOneTimer(b, Fire(h, t));
    StepOneTimer(f, ExchangeFails(b.nextExchange, t, false));
    assert f.armed == map[] && f.exchanges[b.nextExchange] == Running(FromRefresh(k));
  }

  /** So attempts 0, 1 and 2 come before the token expires (120, 90 and 30 seconds), and
      attempt 3 after it; the failure of the sixth attempt expires the session. */
  lemma AttemptsBeforeExpiry(a: Agent, x: nat, now: int)
    requires OneTimer(a) && x in a.exchanges && a.exchanges[x].Succeeded?
    requires a.lastExpiresAtMs >= now + REFRESH_LEAD_MS
    ensures var s := Step(a, CallerResumes(x, now));
            (forall k, h :: 0 <= k <= 2 && h in FailTimes(s, k).armed ==>
               FailTimes(s, k).armed[h].deadline < a.lastExpiresAtMs)
            && (forall h :: h in FailTimes(s, 3).armed ==> FailTimes(s, 3).armed[h].deadline > a.lastExpiresAtMs)
            && FailTimes(s, 6).sessionExpired && FailTimes(s, 6).armed == map[]
  {
    hide Step;
    OffsetValues();
    forall k: nat | k <= 5
      ensures var b := FailTimes(Step(a, CallerResumes(x, now)), k);
              b.refreshTimer.Some?
              && b.armed == map[b.refreshTimer.value := Timer(a.lastExpiresAtMs - REFRESH_LEAD_MS + Offset(k), k)]
    {
      RetryTimes(a, x, now, k);
    }
    RetryTimes(a, x, now, 5);
    SixthFails(FailTimes(Step(a, CallerResumes(x, now)), 5));
  }

  lemma OffsetValues()
    ensures Offset(0) == 0 && Offset(1) == 30_000 && Offset(2) == 90_000 && Offset(3) == 210_000
    ensures Offset(4) == 450_000 && Offset(5) == 750_000
  {}

  /** When an exchange that brought a new expiry is resumed, one refresh is armed: two minutes
      before that expiry, or at once if that is past; whoever made the exchange. */
  lemma ScheduledFromExpiry(es: seq<Event>, x: nat, expiresAtMs: int, now: int)
    requires x in Run(es).exchanges && Run(es).exchanges[x].Running?
    ensures var a := Run(es + [ExchangeSucceeds(x, expiresAtMs)] + [CallerResumes(x, now)]);
            a.lastExpiresAtMs == expiresAtMs && x !in a.exchanges && a.refreshTimer.Some?
            && a.armed == map[a.refreshTimer.value :=
                                Timer(if expiresAtMs - 120_000 >= now then expiresAtMs - 120_000 else now, 0)]
  {
    hide Run;
    AlwaysOneTimer(es);
    RunSnoc(es, ExchangeSucceeds(x, expiresAtMs));
    RunSnoc(es + [ExchangeSucceeds(x, expiresAtMs)], CallerResumes(x, now));
  }

  lemma SixthFails(b: Agent)
    requires OneTimer(b) && b.refreshTimer.Some? && b.refreshTimer.value in b.armed
    requires b.armed[b.refreshTimer.value].attempt == 5
             && b.armed == map[b.refreshTimer.value := b.armed[b.refreshTimer.value]]
    ensures var h, t := b.refreshTimer.value, b.armed[b.refreshTimer.value].deadline;
            var c := Step(Step(b, Fire(h, t)), ExchangeFails(b.nextExchange, t, false));
            c.sessionExpired && c.armed == map[]
  {
    var h, t := b.refreshTimer.value, b.armed[b.refreshTimer.value].deadline;
    var f := Step(b, Fire(h, t));
    assert f.exchanges[b.nextExchange] == Running(FromRefresh(5)) && f.armed == map[];
  }
}
