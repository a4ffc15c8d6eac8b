/** Real time, in nanoseconds: the ticker, the sync cycles it starts, and the health test. */
module Timing {
  import opened Names
  import opened Plugin
  import opened Webhook
  import Setup

  /** The background loop on the clock: when the ticker next fires, whether a tick waits in its
      one-place channel, how many ticks found that place taken, when the cycle in progress began,
      the last status stamp, and when a sync last succeeded (which the code does not keep). */
  datatype Loop = Loop(
    now: int,
    due: int,
    pending: bool,
    dropped: nat,
    running: Option<int>,
    stamp: int,
    status: string,
    success: int)

  datatype Event = Pass(dt: nat) | Fire | Begin | End(status: string)

  /** What a live loop allows: the ticker fires when due, a waiting tick is taken at once, and a
      cycle ends within its timeout. */
  predicate Live(interval: int, timeout: int, l: Loop, e: Event) {
    match e
    case Pass(dt) =>
      && l.now + dt <= l.due
      && (l.running.None? && l.pending ==> dt == 0)
      && (l.running.Some? ==> l.now + dt <= l.running.value + timeout)
    case Fire => l.now == l.due
    case Begin => l.running.None? && l.pending
    case End(_) => l.running.Some?
  }

  function After(interval: int, l: Loop, e: Event): Loop {
    match e
    case Pass(dt) => l.(now := l.now + dt)
    case Fire => l.(due := l.due + interval, pending := true, dropped := if l.pending then l.dropped + 1 else l.dropped)
    case Begin => l.(pending := false, running := Some(l.now))
    case End(status) =>
      l.(running := None, stamp := l.now, status := status, success := if status == SUCCESS then l.now else l.success)
  }

  function AfterAll(interval: int, l: Loop, events: seq<Event>): Loop {
    if events == [] then l
    else After(interval, AfterAll(interval, l, events[..|events| - 1]), events[|events| - 1])
  }

  predicate LiveRun(interval: int, timeout: int, l: Loop, events: seq<Event>) {
    events != [] ==>
      var front, last := events[..|events| - 1], events[|events| - 1];
      LiveRun(interval, timeout, l, front) && Live(interval, timeout, AfterAll(interval, l, front), last)
  }

  /** The loop just launched: its ticker starts now, some time after the start-up stamp. */
  predicate Launched(interval: int, l: Loop) {
    && l.due == l.now + interval
    && !l.pending && l.dropped == 0 && l.running.None?
    && l.stamp <= l.now
  }

  /** The time from the start-up stamp to the start of the ticker. */
  function Delay(l: Loop): int {
    l.now - l.stamp
  }

  /** What the health handler says at this moment. */
  predicate Reported(interval: int, l: Loop) {
    Degraded(l.status, l.stamp, interval, l.now)
  }

  /* ---------- live runs keep a schedule ---------- */

  /** The tick that the loop is working on or waiting for. */
  function Tick(l: Loop): int {
    match l.running
    case Some(began) => began
    case None => if l.pending then l.now else l.due
  }

  /** How the clock, the ticker and the last stamp stand to each other in every reachable moment:
      the last cycle's stamp is at most one interval older than the tick at hand, or there was no
      cycle yet and this is the first tick. */
  predicate OnSchedule(interval: int, timeout: int, start: Loop, l: Loop) {
    && l.dropped == 0
    && l.stamp <= l.now <= l.due
    && (match l.running
        case Some(began) => !l.pending && began == l.due - interval && began <= l.now <= began + timeout
        case None => l.pending ==> l.now == l.due - interval)
    && (|| l.stamp >= Tick(l) - interval
        || (l.stamp == start.stamp && l.status == start.status && Tick(l) == start.due))
  }

  lemma {:induction false} StaysOnSchedule(interval: int, timeout: int, l: Loop, events: seq<Event>)
    requires 0 <= timeout < interval && Launched(interval, l)
    requires LiveRun(interval, timeout, l, events)
    ensures OnSchedule(interval, timeout, l, AfterAll(interval, l, events))
  {
    if events != [] {
      StaysOnSchedule(interval, timeout, l, events[..|events| - 1]);
    }
  }

  /** Without dropping a tick, a live loop keeps its last stamp less than two intervals old from
      the first cycle's stamp on; the start-up stamp may get older than that by the launch delay. */
  lemma StampsStayYoung(interval: int, timeout: int, l: Loop, events: seq<Event>)
    requires 0 <= timeout < interval && Launched(interval, l)
    requires LiveRun(interval, timeout, l, events)
    ensures var m := AfterAll(interval, l, events);
      && m.dropped == 0
      && (|| m.now - m.stamp < 2 * interval
          || (m.stamp == l.stamp && m.status == l.status && m.now - m.stamp <= interval + timeout + Delay(l)))
  {
    StaysOnSchedule(interval, timeout, l, events);
  }

  lemma OneMoreEvent(interval: int, timeout: int, l: Loop, events: seq<Event>, e: Event)
    ensures AfterAll(interval, l, events + [e]) == After(interval, AfterAll(interval, l, events), e)
    ensures LiveRun(interval, timeout, l, events + [e]) <==>
            LiveRun(interval, timeout, l, events) && Live(interval, timeout, AfterAll(interval, l, events), e)
  {
    assert (events + [e])[..|events|] == events;
  }

  /** The first cycle, up to its timeout. */
  function FirstCycle(interval: nat, timeout: nat): seq<Event> {
    [] + [Pass(interval)] + [Fire] + [Begin] + [Pass(timeout)]
  }

  lemma FirstCycleIsLive(interval: nat, timeout: nat, l: Loop)
    requires timeout < interval && Launched(interval, l)
    ensures LiveRun(interval, timeout, l, FirstCycle(interval, timeout))
    ensures var m := AfterAll(interval, l, FirstCycle(interval, timeout));
      m.status == l.status && m.stamp == l.stamp && m.now == l.now + interval + timeout
  {
    OneMoreEvent(interval, timeout, l, [], Pass(interval));
    OneMoreEvent(interval, timeout, l, [] + [Pass(interval)], Fire);
    OneMoreEvent(interval, timeout, l, [] + [Pass(interval)] + [Fire], Begin);
    OneMoreEvent(interval, timeout, l, [] + [Pass(interval)] + [Fire] + [Begin], Pass(timeout));
  }

  /** Some live run from here comes to a moment at which it is reported degraded. */
  ghost predicate CanDegrade(interval: int, timeout: int, l: Loop) {
    exists events :: LiveRun(interval, timeout, l, events) && Reported(interval, AfterAll(interval, l, events))
  }

  /** A live loop can be reported degraded exactly when start-up failed and the launch delay plus
      the timeout exceed the interval, and then only until its first cycle ends: whatever else its
      syncs' outcomes are, a report of degradation means that the loop has stopped or stalled. */
  lemma LiveLoopDegradesIff(interval: int, timeout: int, l: Loop)
    requires 0 <= timeout < interval && Launched(interval, l)
    ensures CanDegrade(interval, timeout, l) <==> l.status == FAILED && timeout + Delay(l) > interval
  {
    forall events | LiveRun(interval, timeout, l, events) && Reported(interval, AfterAll(interval, l, events))
      ensures l.status == FAILED && timeout + Delay(l) > interval
    {
      StampsStayYoung(interval, timeout, l, events);
    }
    if l.status == FAILED && timeout + Delay(l) > interval {
      FirstCycleIsLive(interval, timeout, l);
      assert Reported(interval, AfterAll(interval, l, FirstCycle(interval, timeout)));
    }
  }

  /** That bound holds for every launch under every accepted configuration. Acceptance only keeps the
      timeout below the interval, so it does not by itself rule out the failed start-up. */
  lemma AcceptedConfigurationIsHealthy(
    parse: Setup.DurationParser, zone: string, directives: seq<Setup.Directive>, l: Loop)
    requires Setup.Configure(parse, zone, directives).Ok?
    requires Launched(Setup.Configure(parse, zone, directives).value.syncInterval, l)
    ensures var c := Setup.Configure(parse, zone, directives).value;
      CanDegrade(c.syncInterval, c.timeout, l) <==> l.status == FAILED && c.timeout + Delay(l) > c.syncInterval
  {
    Setup.AcceptedIsBounded(parse, zone, directives);
    hide Setup.Configure;
    var c := Setup.Configure(parse, zone, directives).value;
    LiveLoopDegradesIff(c.syncInterval, c.timeout, l);
  }

  /** Consecutive status stamps of a live loop are less than two intervals apart; for the first
      two, the start-up stamp being one of them, if the launch is quick enough. */
  lemma StampsAreClose(interval: int, timeout: int, l: Loop, events: seq<Event>, status: string)
    requires 0 <= timeout < interval && Launched(interval, l)
    requires LiveRun(interval, timeout, l, events + [End(status)])
    ensures var before, after := AfterAll(interval, l, events), AfterAll(interval, l, events + [End(status)]);
      && before.stamp <= after.stamp
      && (before.stamp > l.stamp || timeout + Delay(l) < interval ==> after.stamp - before.stamp < 2 * interval)
  {
    OneMoreEvent(interval, timeout, l, events, End(status));
    StaysOnSchedule(interval, timeout, l, events);
  }

  /* ---------- the documented test ---------- */

  /** The documented rule: the last sync failed, and more than two intervals have passed since the
      last success. */
  predicate Documented(interval: int, l: Loop) {
    l.status == FAILED && l.now - l.success > 2 * interval
  }

  lemma {:induction false} SuccessIsStamped(interval: int, l: Loop, events: seq<Event>)
    requires l.success <= l.stamp <= l.now
    ensures var m := AfterAll(interval, l, events);
      m.success <= m.stamp <= m.now
  {
    if events != [] {
      SuccessIsStamped(interval, l, events[..|events| - 1]);
    }
  }

  /** In every run, live or not, what is reported is documented; the code falls short of its
      documentation exactly when the last sync failed, the last success is over two intervals old
      and the last stamp is not. */
  lemma DocumentedIsWider(interval: int, l: Loop, events: seq<Event>)
    requires l.success <= l.stamp <= l.now
    ensures var m := AfterAll(interval, l, events);
      && (Reported(interval, m) ==> Documented(interval, m))
      && (Reported(interval, m) != Documented(interval, m) <==>
            m.status == FAILED && m.now - m.success > 2 * interval && m.now - m.stamp <= 2 * interval)
  {
    SuccessIsStamped(interval, l, events);
  }

  /** A live loop launched quickly enough never reports the degradation that the documentation
      promises: whenever the documented rule holds, the code says healthy. */
  lemma DocumentedIsNeverReported(interval: int, timeout: int, l: Loop, events: seq<Event>)
    requires 0 <= timeout < interval && Launched(interval, l)
    requires l.status == FAILED ==> timeout + Delay(l) <= interval
    requires LiveRun(interval, timeout, l, events)
    ensures var m := AfterAll(interval, l, events);
      !Reported(interval, m) && (Reported(interval, m) != Documented(interval, m) <==> Documented(interval, m))
  {
    LiveLoopDegradesIff(interval, timeout, l);
  }

  /** n ticks in a row whose syncs fail at once. */
  function Failing(interval: nat, n: nat): seq<Event> {
    if n == 0 then [] else Failing(interval, n - 1) + [Pass(interval)] + [Fire] + [Begin] + [End(FAILED)]
  }

  lemma {:induction false} FailingIsLive(interval: nat, timeout: nat, l: Loop, n: nat)
    requires timeout < interval && Launched(interval, l)
    ensures LiveRun(interval, timeout, l, Failing(interval, n))
    ensures var m := AfterAll(interval, l, Failing(interval, n));
      && m.now == l.now + n * interval
      && m.due == m.now + interval && m.running == None && !m.pending
      && m.success == l.success
      && (n > 0 ==> m.status == FAILED && m.stamp == m.now)
  {
    if n > 0 {
      var events := Failing(interval, n - 1);
      FailingIsLive(interval, timeout, l, n - 1);
      OneMoreEvent(interval, timeout, l, events, Pass(interval));
      OneMoreEvent(interval, timeout, l, events + [Pass(interval)], Fire);
      OneMoreEvent(interval, timeout, l, events + [Pass(interval)] + [Fire], Begin);
      OneMoreEvent(interval, timeout, l, events + [Pass(interval)] + [Fire] + [Begin], End(FAILED));
      assert n * interval == (n - 1) * interval + interval;
    }
  }

  /** A controller that never answers again: at every moment between two ticks of such a run the
      code reports healthy, and the documented rule says degraded from the moment the last success
      is two intervals old. */
  lemma FailingForeverStaysHealthy(interval: nat, timeout: nat, l: Loop, n: nat, dt: nat)
    requires timeout < interval && Launched(interval, l)
    requires n > 0 && dt <= interval
    ensures LiveRun(interval, timeout, l, Failing(interval, n) + [Pass(dt)])
    ensures var m := AfterAll(interval, l, Failing(interval, n) + [Pass(dt)]);
      && m.now == l.now + n * interval + dt
      && !Reported(interval, m)
      && (Documented(interval, m) <==> l.now + n * interval + dt - l.success > 2 * interval)
  {
    FailingIsLive(interval, timeout, l, n);
    OneMoreEvent(interval, timeout, l, Failing(interval, n), Pass(dt));
  }
}
