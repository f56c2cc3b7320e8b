// The main loop: a timer, two periodic events and the farewell.  The clock, the
// number of ticks before the stop and the outcome of every send are given; a run
// records its sends.
module Scheduler {

  const NANOS_IN_SECOND: nat := 1_000_000_000

  datatype Packet = Hello | Update(k: nat) | InverseUpdate(k: nat) | Goodbye

  datatype Sending = Sending(at: nat, packet: Packet)

  // Periods in seconds, and the numbers of update and inverse update packets.
  datatype Config = Config(helloPeriod: nat, jpPeriod: nat, updates: nat, inverseUpdates: nat)

  type Clock = nat -> nat

  // ---- The plan of a run in which every send succeeds ----

  // The time of a periodic event's next firing before tick i; reading 0 of the
  // clock is that of the timer's creation, and tick i takes reading i + 1.
  function Due(clock: Clock, first: nat, period: nat, i: nat): nat {
    if i == 0 then first
    else if clock(i) >= Due(clock, first, period, i - 1) then clock(i) + NANOS_IN_SECOND * period
    else Due(clock, first, period, i - 1)
  }

  predicate Fires(clock: Clock, first: nat, period: nat, i: nat) {
    clock(i + 1) >= Due(clock, first, period, i)
  }

  predicate HelloFires(cfg: Config, clock: Clock, i: nat) {
    Fires(clock, clock(0), cfg.helloPeriod, i)
  }

  predicate RoundFires(cfg: Config, clock: Clock, i: nat) {
    Fires(clock, clock(0) + NANOS_IN_SECOND * cfg.jpPeriod, cfg.jpPeriod, i)
  }

  function Round(cfg: Config, at: nat): seq<Sending> {
    seq(cfg.updates, k requires 0 <= k < cfg.updates => Sending(at, Update(k)))
  }

  function Tick(cfg: Config, clock: Clock, i: nat): seq<Sending> {
    (if HelloFires(cfg, clock, i) then [Sending(clock(i + 1), Hello)] else []) +
    (if RoundFires(cfg, clock, i) then Round(cfg, clock(i + 1)) else [])
  }

  function Ticks(cfg: Config, clock: Clock, n: nat): seq<Sending> {
    if n == 0 then [] else Ticks(cfg, clock, n - 1) + Tick(cfg, clock, n - 1)
  }

  function InverseRound(cfg: Config, at: nat): seq<Sending> {
    seq(cfg.inverseUpdates, k requires 0 <= k < cfg.inverseUpdates => Sending(at, InverseUpdate(k)))
  }

  function Farewell(cfg: Config, clock: Clock, n: nat): seq<Sending> {
    InverseRound(cfg, clock(n + 1)) + [Sending(clock(n + 2), Goodbye)]
  }

  // The sends of a run that is stopped after n ticks.
  function Plan(cfg: Config, clock: Clock, n: nat): seq<Sending> {
    Ticks(cfg, clock, n) + Farewell(cfg, clock, n)
  }

  // ---- Failures ----

  // How many of len sends, the first one being attempt number start, are
  // attempted when the first failure is the last attempt.
  function Attempts(ok: nat -> bool, start: nat, len: nat): (r: nat)
    ensures r <= len
    decreases len
  {
    if len == 0 then 0 else if !ok(start) then 1 else 1 + Attempts(ok, start + 1, len - 1)
  }

  ghost predicate AllOk(ok: nat -> bool, start: nat, len: nat) {
    forall k :: start <= k < start + len ==> ok(k)
  }

  lemma {:induction false} AttemptsAll(ok: nat -> bool, start: nat, len: nat)
    ensures AllOk(ok, start, len) ==> Attempts(ok, start, len) == len
    ensures !AllOk(ok, start, len) ==>
              && 0 < Attempts(ok, start, len)
              && AllOk(ok, start, Attempts(ok, start, len) - 1)
              && !ok(start + Attempts(ok, start, len) - 1)
    decreases len
  {
    if len > 0 {
      AttemptsAll(ok, start + 1, len - 1);
    }
  }

  lemma {:induction false} AttemptsSplit(ok: nat -> bool, start: nat, m: nat, n: nat)
    ensures Attempts(ok, start, m + n)
         == if AllOk(ok, start, m) then m + Attempts(ok, start + m, n) else Attempts(ok, start, m)
    ensures AllOk(ok, start, m + n) <==> AllOk(ok, start, m) && AllOk(ok, start + m, n)
    decreases m
  {
    if m > 0 {
      AttemptsSplit(ok, start + 1, m - 1, n);
    }
  }

  // Of the planned sends, those up to the first failure, if any, were attempted
  // between the records before and after.
  ghost predicate Did(ok: nat -> bool, before: seq<Sending>, after: seq<Sending>, plan: seq<Sending>, r: bool) {
    && after == before + plan[..Attempts(ok, |before|, |plan|)]
    && (r <==> AllOk(ok, |before|, |plan|))
  }

  // Sends that follow on successful ones extend the plan; after a failure there
  // are none.
  lemma DidBoth(ok: nat -> bool, a: seq<Sending>, b: seq<Sending>, c: seq<Sending>,
                p: seq<Sending>, q: seq<Sending>, r: bool)
    requires Did(ok, a, b, p, true) && Did(ok, b, c, q, r)
    ensures Did(ok, a, c, p + q, r)
  {
    AttemptsAll(ok, |a|, |p|);
    AttemptsSplit(ok, |a|, |p|, |q|);
    assert (p + q)[..|p| + Attempts(ok, |b|, |q|)] == p + q[..Attempts(ok, |b|, |q|)];
  }

  lemma DidFail(ok: nat -> bool, a: seq<Sending>, b: seq<Sending>, p: seq<Sending>, q: seq<Sending>)
    requires Did(ok, a, b, p, false)
    ensures Did(ok, a, b, p + q, false)
  {
    AttemptsSplit(ok, |a|, |p|, |q|);
    assert (p + q)[..Attempts(ok, |a|, |p|)] == p[..Attempts(ok, |a|, |p|)];
  }

  lemma DidNothing(ok: nat -> bool, a: seq<Sending>)
    ensures Did(ok, a, a, [], true)
  {
  }

  // ---- The objects ----

  class Timer {
    var ts: nat

    constructor (now: nat)
      ensures ts == now
    {
      ts := now;
    }

    method Update(now: nat)
      modifies this
      ensures ts == now
    {
      ts := now;
    }

    function InSec(seconds: nat): nat
      reads this
    {
      ts + NANOS_IN_SECOND * seconds
    }
  }

  class PIMIntf {
    const timer: Timer
    const ok: nat -> bool
    var sent: seq<Sending>  // the attempted sends

    constructor (timer: Timer, ok: nat -> bool)
      ensures this.timer == timer && this.ok == ok && sent == []
    {
      this.timer, this.ok, sent := timer, ok, [];
    }

    method Send(packet: Packet) returns (r: bool)
      modifies this
      ensures sent == old(sent) + [Sending(timer.ts, packet)]
      ensures r == ok(|old(sent)|)
    {
      r := ok(|sent|);
      sent := sent + [Sending(timer.ts, packet)];
    }
  }

  class HelloEvent {
    const intf: PIMIntf
    const period: nat
    var nextEventTime: nat

    constructor (intf: PIMIntf, cfg: Config)
      ensures this.intf == intf && period == cfg.helloPeriod && nextEventTime == intf.timer.ts
    {
      this.intf, period := intf, cfg.helloPeriod;
      nextEventTime := intf.timer.ts;
    }

    method Ready() returns (r: bool)
      modifies this
      ensures r <==> intf.timer.ts >= old(nextEventTime)
      ensures nextEventTime == if r then intf.timer.InSec(period) else old(nextEventTime)
    {
      if intf.timer.ts >= nextEventTime {
        nextEventTime := intf.timer.InSec(period);
        return true;
      }
      return false;
    }

    method Fire() returns (r: bool)
      modifies intf
      ensures Did(intf.ok, old(intf.sent), intf.sent, [Sending(intf.timer.ts, Hello)], r)
    {
      r := intf.Send(Hello);
      assert Attempts(intf.ok, |old(intf.sent)|, 1) == 1;
    }
  }

  class JPUpdateEvent {
    const intf: PIMIntf
    const cfg: Config
    var nextEventTime: nat

    constructor (intf: PIMIntf, cfg: Config)
      ensures this.intf == intf && this.cfg == cfg && nextEventTime == intf.timer.InSec(cfg.jpPeriod)
    {
      this.intf, this.cfg := intf, cfg;
      nextEventTime := intf.timer.InSec(cfg.jpPeriod);
    }

    method Ready() returns (r: bool)
      modifies this
      ensures r <==> intf.timer.ts >= old(nextEventTime)
      ensures nextEventTime == if r then intf.timer.InSec(cfg.jpPeriod) else old(nextEventTime)
    {
      if intf.timer.ts >= nextEventTime {
        nextEventTime := intf.timer.InSec(cfg.jpPeriod);
        return true;
      }
      return false;
    }

    method Fire() returns (r: bool)
      modifies intf
      ensures Did(intf.ok, old(intf.sent), intf.sent, Round(cfg, intf.timer.ts), r)
    {
      ghost var plan, start := Round(cfg, intf.timer.ts), |intf.sent|;
      for k := 0 to cfg.updates
        invariant intf.sent == old(intf.sent) + plan[..k] && AllOk(intf.ok, start, k)
      {
        AttemptsSplit(intf.ok, start, k, cfg.updates - k);
        r := intf.Send(Update(k));
        assert plan[..k + 1] == plan[..k] + [plan[k]];
        if !r {
          return;
        }
      }
      AttemptsAll(intf.ok, start, cfg.updates);
      return true;
    }
  }

  class GoodbyeJPUpdateEvent {
    const intf: PIMIntf
    const cfg: Config

    constructor (intf: PIMIntf, cfg: Config)
      ensures this.intf == intf && this.cfg == cfg
    {
      this.intf, this.cfg := intf, cfg;
    }

    method Send() returns (r: bool)
      modifies intf
      ensures Did(intf.ok, old(intf.sent), intf.sent, InverseRound(cfg, intf.timer.ts), r)
    {
      ghost var plan, start := InverseRound(cfg, intf.timer.ts), |intf.sent|;
      for k := 0 to cfg.inverseUpdates
        invariant intf.sent == old(intf.sent) + plan[..k] && AllOk(intf.ok, start, k)
      {
        AttemptsSplit(intf.ok, start, k, cfg.inverseUpdates - k);
        r := intf.Send(InverseUpdate(k));
        assert plan[..k + 1] == plan[..k] + [plan[k]];
        if !r {
          return;
        }
      }
      AttemptsAll(intf.ok, start, cfg.inverseUpdates);
      return true;
    }
  }

  class GoodbyeEvent {
    const intf: PIMIntf

    constructor (intf: PIMIntf)
      ensures this.intf == intf
    {
      this.intf := intf;
    }

    method Send() returns (r: bool)
      modifies intf
      ensures Did(intf.ok, old(intf.sent), intf.sent, [Sending(intf.timer.ts, Goodbye)], r)
    {
      r := intf.Send(Goodbye);
      assert Attempts(intf.ok, |old(intf.sent)|, 1) == 1;
    }
  }

  // ---- The event queue ----

  datatype RunResult = Fired(count: nat) | Failed

  class FixedEventQueue {
    const hello: HelloEvent
    const jpUpdate: JPUpdateEvent

    constructor (intf: PIMIntf, cfg: Config)
      ensures fresh(hello) && hello.intf == intf && hello.period == cfg.helloPeriod
      ensures fresh(jpUpdate) && jpUpdate.intf == intf && jpUpdate.cfg == cfg
      ensures hello.nextEventTime == intf.timer.ts
      ensures jpUpdate.nextEventTime == intf.timer.InSec(cfg.jpPeriod)
    {
      hello := new HelloEvent(intf, cfg);
      jpUpdate := new JPUpdateEvent(intf, cfg);
    }

    // The two events are due as planned before tick i.
    ghost predicate DueAt(cfg: Config, clock: Clock, i: nat)
      reads hello, jpUpdate
    {
      && hello.intf == jpUpdate.intf && hello.period == cfg.helloPeriod && jpUpdate.cfg == cfg
      && hello.nextEventTime == Due(clock, clock(0), cfg.helloPeriod, i)
      && jpUpdate.nextEventTime == Due(clock, clock(0) + NANOS_IN_SECOND * cfg.jpPeriod, cfg.jpPeriod, i)
    }

    // The chain from the second event on, after count events fired.
    method ChainFromJPUpdate(count: nat) returns (r: RunResult)
      modifies jpUpdate, jpUpdate.intf
      ensures var fires := jpUpdate.intf.timer.ts >= old(jpUpdate.nextEventTime);
              && Did(jpUpdate.intf.ok, old(jpUpdate.intf.sent), jpUpdate.intf.sent,
                     if fires then Round(jpUpdate.cfg, jpUpdate.intf.timer.ts) else [], r.Fired?)
              && jpUpdate.nextEventTime
              == (if fires then jpUpdate.intf.timer.InSec(jpUpdate.cfg.jpPeriod) else old(jpUpdate.nextEventTime))
              && (r.Fired? ==> r.count == count + (if fires then 1 else 0))
    {
      DidNothing(jpUpdate.intf.ok, jpUpdate.intf.sent);
      var ready := jpUpdate.Ready();
      if ready {
        var ok := jpUpdate.Fire();
        if ok {
          return Fired(count + 1);
        }
        return Failed;
      }
      return Fired(count);
    }

    method RunOnce(ghost cfg: Config, ghost clock: Clock, ghost i: nat) returns (r: RunResult)
      requires DueAt(cfg, clock, i) && hello.intf.timer.ts == clock(i + 1)
      modifies hello, jpUpdate, hello.intf
      ensures Did(hello.intf.ok, old(hello.intf.sent), hello.intf.sent, Tick(cfg, clock, i), r.Fired?)
      ensures r.Fired? ==> DueAt(cfg, clock, i + 1)
      ensures r.Fired? ==> r.count == (if HelloFires(cfg, clock, i) then 1 else 0)
                                    + (if RoundFires(cfg, clock, i) then 1 else 0)
    {
      hide Did;
      ghost var intf, at := hello.intf, clock(i + 1);
      ghost var sent := intf.sent;
      ghost var p := if HelloFires(cfg, clock, i) then [Sending(at, Hello)] else [];
      ghost var q := if RoundFires(cfg, clock, i) then Round(cfg, at) else [];
      DidNothing(intf.ok, sent);
      var count := 0;
      var ready := hello.Ready();
      if ready {
        var ok := hello.Fire();
        if !ok {
          DidFail(intf.ok, sent, intf.sent, p, q);
          return Failed;
        }
        count := 1;
      }
      ghost var mid := intf.sent;
      r := ChainFromJPUpdate(count);
      DidBoth(intf.ok, sent, mid, intf.sent, p, q, r.Fired?);
    }
  }

  // ---- The run ----

  lemma {:induction false} TicksSplit(cfg: Config, clock: Clock, i: nat, n: nat) returns (rest: seq<Sending>)
    requires i <= n
    ensures Ticks(cfg, clock, n) == Ticks(cfg, clock, i) + rest
    decreases n - i
  {
    hide Tick;
    if i == n {
      rest := [];
    } else {
      var more := TicksSplit(cfg, clock, i, n - 1);
      rest := more + Tick(cfg, clock, n - 1);
      assert Ticks(cfg, clock, n) == (Ticks(cfg, clock, i) + more) + Tick(cfg, clock, n - 1);
    }
  }

  // A run that failed in its first i ticks attempted no more of its plan.
  lemma PlanFails(cfg: Config, clock: Clock, ok: nat -> bool, i: nat, n: nat, sent: seq<Sending>)
    requires i <= n && Did(ok, [], sent, Ticks(cfg, clock, i), false)
    ensures Did(ok, [], sent, Plan(cfg, clock, n), false)
  {
    hide Did, Ticks;
    var rest := TicksSplit(cfg, clock, i, n);
    DidFail(ok, [], sent, Ticks(cfg, clock, i), rest + Farewell(cfg, clock, n));
    assert Plan(cfg, clock, n) == Ticks(cfg, clock, i) + (rest + Farewell(cfg, clock, n));
  }

  // The ticks until the stop is seen.
  method RunTicks(cfg: Config, clock: Clock, n: nat, timer: Timer, intf: PIMIntf) returns (r: bool)
    requires timer.ts == clock(0) && intf.timer == timer && intf.sent == []
    modifies timer, intf
    ensures r ==> Did(intf.ok, [], intf.sent, Ticks(cfg, clock, n), true)
    ensures !r ==> Did(intf.ok, [], intf.sent, Plan(cfg, clock, n), false)
  {
    hide Did, Ticks, Tick, InverseRound;
    var events := new FixedEventQueue(intf, cfg);
    NoTicks(cfg, clock, intf.ok);
    for i := 0 to n
      invariant events.hello.intf == intf && events.DueAt(cfg, clock, i)
      invariant fresh(events.hello) && fresh(events.jpUpdate)
      invariant Did(intf.ok, [], intf.sent, Ticks(cfg, clock, i), true)
    {
      ghost var sent := intf.sent;
      timer.Update(clock(i + 1));
      var fired := events.RunOnce(cfg, clock, i);
      TicksMore(cfg, clock, i);
      DidBoth(intf.ok, [], sent, intf.sent, Ticks(cfg, clock, i), Tick(cfg, clock, i), fired.Fired?);
      if fired.Failed? {
        PlanFails(cfg, clock, intf.ok, i + 1, n, intf.sent);
        return false;
      }
    }
    return true;
  }

  // The inverse updates and the goodbye, after n ticks.
  method SayFarewell(cfg: Config, clock: Clock, n: nat, timer: Timer, intf: PIMIntf) returns (r: bool)
    requires intf.timer == timer && Did(intf.ok, [], intf.sent, Ticks(cfg, clock, n), true)
    modifies timer, intf
    ensures Did(intf.ok, [], intf.sent, Plan(cfg, clock, n), r)
  {
    hide Did, Ticks, Tick, InverseRound;
    var goodbyeEvent := new GoodbyeEvent(intf);
    var goodbyeJpUpdateEvent := new GoodbyeJPUpdateEvent(intf, cfg);
    ghost var ticks, inverse := Ticks(cfg, clock, n), InverseRound(cfg, clock(n + 1));
    ghost var bye := [Sending(clock(n + 2), Goodbye)];
    ghost var sent := intf.sent;
    timer.Update(clock(n + 1));
    r := goodbyeJpUpdateEvent.Send();
    DidBoth(intf.ok, [], sent, intf.sent, ticks, inverse, r);
    assert Plan(cfg, clock, n) == ticks + inverse + bye;
    if !r {
      DidFail(intf.ok, [], intf.sent, ticks + inverse, bye);
      return;
    }

    sent := intf.sent;
    timer.Update(clock(n + 2));
    r := goodbyeEvent.Send();
    DidBoth(intf.ok, [], sent, intf.sent, ticks + inverse, bye, r);
  }

  lemma NoTicks(cfg: Config, clock: Clock, ok: nat -> bool)
    ensures Did(ok, [], [], Ticks(cfg, clock, 0), true)
  {
  }

  lemma TicksMore(cfg: Config, clock: Clock, i: nat)
    ensures Ticks(cfg, clock, i + 1) == Ticks(cfg, clock, i) + Tick(cfg, clock, i)
  {
  }

  // The attempted sends of an execution, given whether its interface opens: the plan
  // up to and including the first failure.
  function Sends(cfg: Config, clock: Clock, opens: bool, ok: nat -> bool, n: nat): seq<Sending> {
    if opens then Plan(cfg, clock, n)[..Attempts(ok, 0, |Plan(cfg, clock, n)|)] else []
  }

  // The whole execution.  It succeeds if and only if the interface opens and no
  // planned send fails.
  method Exec(cfg: Config, clock: Clock, opens: bool, ok: nat -> bool, n: nat) returns (r: bool, sent: seq<Sending>)
    ensures sent == Sends(cfg, clock, opens, ok, n)
    ensures r <==> opens && AllOk(ok, 0, |Plan(cfg, clock, n)|)
  {
    hide Plan, Ticks;
    if !opens {
      return false, [];
    }
    var timer := new Timer(clock(0));
    var intf := new PIMIntf(timer, ok);
    r := RunTicks(cfg, clock, n, timer, intf);
    if r {
      r := SayFarewell(cfg, clock, n, timer, intf);
    }
    sent := intf.sent;
  }
}
