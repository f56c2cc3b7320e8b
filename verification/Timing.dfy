// Timing and order of the planned sends, over whole runs.
module Timing {
  import opened Scheduler

  // The clock never goes back, and consecutive readings are at most gap apart.
  ghost predicate Steady(clock: Clock, gap: nat) {
    forall i: nat :: clock(i) <= clock(i + 1) <= clock(i) + gap
  }

  lemma {:induction false} DueGrows(clock: Clock, first: nat, period: nat, i: nat, j: nat)
    requires i <= j
    ensures Due(clock, first, period, i) <= Due(clock, first, period, j)
    decreases j
  {
    if i < j {
      DueGrows(clock, first, period, i, j - 1);
    }
  }

  // Whatever the clock does, firings are at least a period apart, and none is
  // before the first due time.
  lemma Spacing(clock: Clock, first: nat, period: nat, i: nat, j: nat)
    requires i < j && Fires(clock, first, period, i) && Fires(clock, first, period, j)
    ensures clock(j + 1) >= clock(i + 1) + NANOS_IN_SECOND * period
    ensures clock(i + 1) >= first
  {
    DueGrows(clock, first, period, i + 1, j);
    DueGrows(clock, first, period, 0, i);
  }

  lemma NotBefore(clock: Clock, first: nat, period: nat, i: nat)
    requires Fires(clock, first, period, i)
    ensures clock(i + 1) >= first
  {
    DueGrows(clock, first, period, 0, i);
  }

  // The time that the last firing before tick j counts from.
  lemma {:induction false} DueSinceLast(clock: Clock, first: nat, period: nat, i: nat, j: nat)
    requires i < j && Fires(clock, first, period, i)
    requires forall k :: i < k < j ==> !Fires(clock, first, period, k)
    ensures Due(clock, first, period, j) == clock(i + 1) + NANOS_IN_SECOND * period
    decreases j
  {
    if i + 1 < j {
      DueSinceLast(clock, first, period, i, j - 1);
      assert !Fires(clock, first, period, j - 1);
    }
  }

  // On a steady clock the next tick, whether it fires or not, comes less than a
  // period and a gap after the last firing.
  lemma NoLapse(clock: Clock, first: nat, period: nat, gap: nat, i: nat, j: nat)
    requires Steady(clock, gap) && period > 0
    requires i < j && Fires(clock, first, period, i)
    requires forall k :: i < k < j ==> !Fires(clock, first, period, k)
    ensures clock(j + 1) < clock(i + 1) + NANOS_IN_SECOND * period + gap
  {
    assert clock(j) <= clock(j + 1) <= clock(j) + gap;
    if i + 1 < j {
      DueSinceLast(clock, first, period, i, j - 1);
      assert !Fires(clock, first, period, j - 1);
    }
  }

  lemma {:induction false} DueUntilFirst(clock: Clock, first: nat, period: nat, j: nat)
    requires forall k :: 0 <= k < j ==> !Fires(clock, first, period, k)
    ensures Due(clock, first, period, j) == first
  {
    if j > 0 {
      DueUntilFirst(clock, first, period, j - 1);
      assert !Fires(clock, first, period, j - 1);
    }
  }

  // The last firing before tick j, if there is one.
  lemma {:induction false} LastFiring(clock: Clock, first: nat, period: nat, j: nat) returns (i: int)
    ensures -1 <= i < j
    ensures i >= 0 ==> Fires(clock, first, period, i)
    ensures forall k :: i < k < j ==> !Fires(clock, first, period, k)
  {
    i := j - 1;
    while i >= 0 && !Fires(clock, first, period, i)
      invariant -1 <= i < j
      invariant forall k :: i < k < j ==> !Fires(clock, first, period, k)
    {
      i := i - 1;
    }
  }

  // On a steady clock the tick after a due time that was not reached comes less
  // than a gap after it.
  lemma BeforeFirst(clock: Clock, first: nat, period: nat, gap: nat, j: nat)
    requires Steady(clock, gap) && j > 0
    requires forall k :: 0 <= k < j ==> !Fires(clock, first, period, k)
    ensures clock(j + 1) < first + gap
  {
    DueUntilFirst(clock, first, period, j - 1);
    assert !Fires(clock, first, period, j - 1);
    assert clock(j + 1) <= clock(j) + gap;
  }

  // With the built-in periods of 30 and 60 seconds and ticks at most 75 seconds
  // apart, every tick but the first comes less than the 105 second hold time after
  // a Hello, and less than the 210 second hold time after a Join/Prune round or,
  // before the first round, after the start.
  lemma BuiltInHoldTimes(cfg: Config, clock: Clock, gap: nat, j: nat)
    requires cfg.helloPeriod == 30 && cfg.jpPeriod == 60
    requires Steady(clock, gap) && gap <= 75 * NANOS_IN_SECOND
    requires j > 0
    ensures exists i: nat :: i < j && HelloFires(cfg, clock, i) && clock(j + 1) < clock(i + 1) + 105 * NANOS_IN_SECOND
    ensures (exists i: nat :: i < j && RoundFires(cfg, clock, i) && clock(j + 1) < clock(i + 1) + 210 * NANOS_IN_SECOND)
         || clock(j + 1) < clock(0) + 210 * NANOS_IN_SECOND
  {
    HelloFirst(cfg, clock, gap);
    var h := LastFiring(clock, clock(0), 30, j);
    assert h >= 0 by {
      assert Fires(clock, clock(0), 30, 0);
    }
    NoLapse(clock, clock(0), 30, gap, h, j);
    assert HelloFires(cfg, clock, h);
    var r := LastFiring(clock, clock(0) + NANOS_IN_SECOND * 60, 60, j);
    if r >= 0 {
      NoLapse(clock, clock(0) + NANOS_IN_SECOND * 60, 60, gap, r, j);
      assert RoundFires(cfg, clock, r);
    } else {
      BeforeFirst(clock, clock(0) + NANOS_IN_SECOND * 60, 60, gap, j);
    }
  }

  // The first tick of a run sends a Hello, before anything else.
  lemma HelloFirst(cfg: Config, clock: Clock, gap: nat)
    requires Steady(clock, gap)
    ensures HelloFires(cfg, clock, 0)
  {
    assert clock(0) <= clock(0 + 1);
  }

  // ---- The first send, on any clock ----

  // The clock is not before the timer's creation at tick i.
  ghost predicate Reached(clock: Clock, i: nat) {
    clock(i + 1) >= clock(0)
  }

  ghost predicate SomeReached(clock: Clock, n: nat) {
    exists i: nat :: i < n && Reached(clock, i)
  }

  // Until the clock first reaches the time of the timer's creation, nothing is sent.
  lemma {:induction false} NothingBefore(cfg: Config, clock: Clock, n: nat)
    requires !SomeReached(clock, n)
    ensures Ticks(cfg, clock, n) == []
    ensures Due(clock, clock(0), cfg.helloPeriod, n) == clock(0)
  {
    if n > 0 {
      assert !Reached(clock, n - 1);
      NothingBefore(cfg, clock, n - 1);
      NoRoundBefore(cfg, clock, n - 1);
    }
  }

  // No round is due before the time of the timer's creation.
  lemma NoRoundBefore(cfg: Config, clock: Clock, i: nat)
    requires !Reached(clock, i)
    ensures !RoundFires(cfg, clock, i)
  {
    DueGrows(clock, clock(0) + NANOS_IN_SECOND * cfg.jpPeriod, cfg.jpPeriod, 0, i);
  }

  // The first time that the clock is there, the first thing sent is a Hello.
  lemma FirstReached(cfg: Config, clock: Clock, i: nat)
    requires Reached(clock, i) && !SomeReached(clock, i)
    ensures Ticks(cfg, clock, i + 1) != [] && Ticks(cfg, clock, i + 1)[0] == Sending(clock(i + 1), Hello)
  {
    NothingBefore(cfg, clock, i);
    assert HelloFires(cfg, clock, i);
    TicksMore(cfg, clock, i);
  }

  lemma {:induction false} TicksStartWithHello(cfg: Config, clock: Clock, n: nat)
    requires SomeReached(clock, n)
    ensures Ticks(cfg, clock, n) != [] && Ticks(cfg, clock, n)[0].packet == Hello
  {
    hide Tick;
    if SomeReached(clock, n - 1) {
      TicksStartWithHello(cfg, clock, n - 1);
      TicksMore(cfg, clock, n - 1);
    } else {
      FirstReached(cfg, clock, n - 1);
    }
  }

  // A run starts with a Hello if and only if, before it is stopped, some tick finds
  // the clock not before the timer's creation; on any clock, and however the run goes,
  // no update is sent unless a Hello was sent first.
  lemma PlanStartsWithHello(cfg: Config, clock: Clock, n: nat)
    ensures |Plan(cfg, clock, n)| > 0
    ensures Plan(cfg, clock, n)[0].packet == Hello <==> SomeReached(clock, n)
    ensures forall k :: 0 <= k < |Plan(cfg, clock, n)| && Plan(cfg, clock, n)[k].packet.Update? ==>
              k > 0 && Plan(cfg, clock, n)[0].packet == Hello
  {
    hide Ticks;
    var ticks, bye := Ticks(cfg, clock, n), Farewell(cfg, clock, n);
    if SomeReached(clock, n) {
      TicksStartWithHello(cfg, clock, n);
      assert Plan(cfg, clock, n)[0] == ticks[0];
    } else {
      NothingBefore(cfg, clock, n);
      assert Plan(cfg, clock, n) == bye;
      forall k | 0 <= k < |bye|
        ensures !bye[k].packet.Update? && bye[k].packet != Hello
      {
      }
    }
  }

  // On a clock that does not step back only a run of no ticks starts otherwise.
  lemma SteadyReaches(clock: Clock, gap: nat, n: nat)
    requires Steady(clock, gap)
    ensures SomeReached(clock, n) <==> n > 0
  {
    if n > 0 {
      assert clock(0) <= clock(0 + 1);
      assert Reached(clock, 0);
    }
  }

  // A run that is stopped before its first tick, or after a first tick at which the
  // clock was set back, prunes first, with no Hello before.
  lemma StoppedAtOnce(cfg: Config, clock: Clock)
    requires cfg.inverseUpdates > 0
    ensures Plan(cfg, clock, 0)[0].packet == InverseUpdate(0)
    ensures clock(1) < clock(0) ==> Plan(cfg, clock, 1)[0].packet == InverseUpdate(0)
  {
    assert !SomeReached(clock, 0);
    if clock(1) < clock(0) {
      assert !Reached(clock, 0);
      assert !SomeReached(clock, 1);
      NothingBefore(cfg, clock, 1);
    }
  }

  // ---- A clock that is set back ----

  // Ticks 100 ms apart on a clock that is set back by a number of seconds between its
  // second and third reading.
  function SetBack(seconds: nat): Clock {
    (k: nat) => if k <= 1 then NANOS_IN_SECOND * seconds else 100_000_000 * (k - 2)
  }

  // After the first Hello there is none until the clock is a period past where it was:
  // no tick less than that much later sends one, so that hold times lapse for any
  // period when the clock is set back far enough.
  lemma SilentAfterSetBack(cfg: Config, seconds: nat, i: nat)
    requires 0 < i && 100_000_000 * (i - 1) < NANOS_IN_SECOND * (seconds + cfg.helloPeriod)
    ensures HelloFires(cfg, SetBack(seconds), 0) && !HelloFires(cfg, SetBack(seconds), i)
  {
    DueSetBack(cfg, seconds, i);
  }

  lemma {:induction false} DueSetBack(cfg: Config, seconds: nat, i: nat)
    requires 0 < i && 100_000_000 * (i - 1) < NANOS_IN_SECOND * (seconds + cfg.helloPeriod)
    ensures Due(SetBack(seconds), SetBack(seconds)(0), cfg.helloPeriod, i)
         == NANOS_IN_SECOND * (seconds + cfg.helloPeriod)
    decreases i
  {
    if i > 1 {
      DueSetBack(cfg, seconds, i - 1);
    } else {
      assert Due(SetBack(seconds), SetBack(seconds)(0), cfg.helloPeriod, 0) == NANOS_IN_SECOND * seconds;
    }
  }

  // How every plan ends: behind the sends of the ticks come all inverse updates in
  // order, at one time, and one Goodbye, which is the only one and the last send.
  lemma PlanEnds(cfg: Config, clock: Clock, n: nat)
    ensures var plan, t := Plan(cfg, clock, n), |Ticks(cfg, clock, n)|;
            && |plan| == t + cfg.inverseUpdates + 1
            && plan[..t] == Ticks(cfg, clock, n)
            && (forall k :: 0 <= k < cfg.inverseUpdates ==> plan[t + k] == Sending(clock(n + 1), InverseUpdate(k)))
            && plan[|plan| - 1] == Sending(clock(n + 2), Goodbye)
            && (forall k :: 0 <= k < |plan| && plan[k].packet == Goodbye ==> k == |plan| - 1)
  {
    PlanIs(cfg, clock, n);
    FarewellShape(cfg, clock, n);
    hide *;
    TicksHaveNoFarewell(cfg, clock, n);
    Behind(Ticks(cfg, clock, n), Farewell(cfg, clock, n));
  }

  lemma PlanIs(cfg: Config, clock: Clock, n: nat)
    ensures Plan(cfg, clock, n) == Ticks(cfg, clock, n) + Farewell(cfg, clock, n)
  {
  }

  lemma Behind(a: seq<Sending>, b: seq<Sending>)
    ensures |a + b| == |a| + |b| && (a + b)[..|a|] == a
    ensures forall k :: 0 <= k < |a| ==> (a + b)[k] == a[k]
    ensures forall k :: 0 <= k < |b| ==> (a + b)[|a| + k] == b[k]
    ensures forall k :: |a| <= k < |a| + |b| ==> (a + b)[k] == b[k - |a|]
  {
  }

  lemma FarewellShape(cfg: Config, clock: Clock, n: nat)
    ensures var bye := Farewell(cfg, clock, n);
            && |bye| == cfg.inverseUpdates + 1
            && (forall k :: 0 <= k < cfg.inverseUpdates ==> bye[k] == Sending(clock(n + 1), InverseUpdate(k)))
            && bye[|bye| - 1] == Sending(clock(n + 2), Goodbye)
  {
  }

  // The ticks send Hellos and updates only.
  lemma {:induction false} TicksHaveNoFarewell(cfg: Config, clock: Clock, n: nat)
    ensures forall k :: 0 <= k < |Ticks(cfg, clock, n)| ==>
              Ticks(cfg, clock, n)[k].packet.Hello? || Ticks(cfg, clock, n)[k].packet.Update?
  {
    if n > 0 {
      TicksHaveNoFarewell(cfg, clock, n - 1);
    }
  }

  // ---- When exactly the events fire ----

  ghost predicate NoneSince(clock: Clock, first: nat, period: nat, i: nat, j: nat) {
    forall k :: i <= k < j ==> !Fires(clock, first, period, k)
  }

  // The first tick at which an event fires is the first one not before its first due
  // time; after a firing, the next is the first one at least a period later.
  lemma FiresExactly(clock: Clock, first: nat, period: nat, j: nat)
    ensures NoneSince(clock, first, period, 0, j) ==> (Fires(clock, first, period, j) <==> clock(j + 1) >= first)
    ensures forall i: nat :: i < j && Fires(clock, first, period, i) && NoneSince(clock, first, period, i + 1, j) ==>
              (Fires(clock, first, period, j) <==> clock(j + 1) >= clock(i + 1) + 1_000_000_000 * period)
  {
    if NoneSince(clock, first, period, 0, j) {
      DueUntilFirst(clock, first, period, j);
    }
    forall i: nat | i < j && Fires(clock, first, period, i) && NoneSince(clock, first, period, i + 1, j)
      ensures Fires(clock, first, period, j) <==> clock(j + 1) >= clock(i + 1) + 1_000_000_000 * period
    {
      DueSinceLast(clock, first, period, i, j);
    }
  }

  ghost predicate NoHello(cfg: Config, clock: Clock, i: nat, j: nat) {
    forall k :: i <= k < j ==> !HelloFires(cfg, clock, k)
  }

  ghost predicate NoRound(cfg: Config, clock: Clock, i: nat, j: nat) {
    forall k :: i <= k < j ==> !RoundFires(cfg, clock, k)
  }

  lemma NoneOfEither(cfg: Config, clock: Clock, i: nat, j: nat)
    ensures NoHello(cfg, clock, i, j) ==> NoneSince(clock, clock(0), cfg.helloPeriod, i, j)
    ensures NoRound(cfg, clock, i, j) ==>
              NoneSince(clock, clock(0) + NANOS_IN_SECOND * cfg.jpPeriod, cfg.jpPeriod, i, j)
  {
    if NoHello(cfg, clock, i, j) {
      forall k | i <= k < j
        ensures !Fires(clock, clock(0), cfg.helloPeriod, k)
      {
        assert !HelloFires(cfg, clock, k);
      }
    }
    if NoRound(cfg, clock, i, j) {
      var first := clock(0) + NANOS_IN_SECOND * cfg.jpPeriod;
      forall k | i <= k < j
        ensures !Fires(clock, first, cfg.jpPeriod, k)
      {
        assert !RoundFires(cfg, clock, k);
      }
    }
  }

  // The first Hello is sent by the first tick that is not before the timer's creation,
  // and the first round by the first that is a period later, in nanoseconds.
  lemma FirstFirings(cfg: Config, clock: Clock, j: nat)
    ensures NoHello(cfg, clock, 0, j) ==> (HelloFires(cfg, clock, j) <==> clock(j + 1) >= clock(0))
    ensures NoRound(cfg, clock, 0, j) ==>
              (RoundFires(cfg, clock, j) <==> clock(j + 1) >= clock(0) + 1_000_000_000 * cfg.jpPeriod)
  {
    hide Fires, NoneSince, NoHello, NoRound;
    NoneOfEither(cfg, clock, 0, j);
    FiresExactly(clock, clock(0), cfg.helloPeriod, j);
    FiresExactly(clock, clock(0) + NANOS_IN_SECOND * cfg.jpPeriod, cfg.jpPeriod, j);
  }

  // After a Hello or a round the next is sent by the first tick a period later.
  lemma NextFirings(cfg: Config, clock: Clock, i: nat, j: nat)
    requires i < j
    ensures HelloFires(cfg, clock, i) && NoHello(cfg, clock, i + 1, j) ==>
              (HelloFires(cfg, clock, j) <==> clock(j + 1) >= clock(i + 1) + 1_000_000_000 * cfg.helloPeriod)
    ensures RoundFires(cfg, clock, i) && NoRound(cfg, clock, i + 1, j) ==>
              (RoundFires(cfg, clock, j) <==> clock(j + 1) >= clock(i + 1) + 1_000_000_000 * cfg.jpPeriod)
  {
    hide Fires, NoneSince, NoHello, NoRound;
    NoneOfEither(cfg, clock, i + 1, j);
    FiresExactly(clock, clock(0), cfg.helloPeriod, j);
    FiresExactly(clock, clock(0) + NANOS_IN_SECOND * cfg.jpPeriod, cfg.jpPeriod, j);
  }

  // Every tick sends at most one Hello, and after it at most one round, which is
  // complete and in order.
  lemma TickShape(cfg: Config, clock: Clock, i: nat)
    ensures exists hello: seq<Sending>, round: seq<Sending> ::
              && Tick(cfg, clock, i) == hello + round
              && (hello == [] || hello == [Sending(clock(i + 1), Hello)])
              && (round == [] || (|round| == cfg.updates
                    && forall k :: 0 <= k < |round| ==> round[k] == Sending(clock(i + 1), Update(k))))
  {
    var hello := if HelloFires(cfg, clock, i) then [Sending(clock(i + 1), Hello)] else [];
    var round := if RoundFires(cfg, clock, i) then Round(cfg, clock(i + 1)) else [];
    assert Tick(cfg, clock, i) == hello + round;
  }

  // A send that tick i makes.
  ghost predicate SentAt(cfg: Config, clock: Clock, i: nat, s: Sending) {
    && s.at == clock(i + 1)
    && ((s.packet == Hello && HelloFires(cfg, clock, i))
        || (s.packet.Update? && s.packet.k < cfg.updates && RoundFires(cfg, clock, i)))
  }

  lemma TickSends(cfg: Config, clock: Clock, i: nat, s: Sending)
    ensures s in Tick(cfg, clock, i) <==> SentAt(cfg, clock, i, s)
  {
    var at := clock(i + 1);
    assert s in Round(cfg, at) <==> s.at == at && s.packet.Update? && s.packet.k < cfg.updates by {
      if s.packet.Update? && s.packet.k < cfg.updates && s.at == at {
        assert Round(cfg, at)[s.packet.k] == s;
      }
    }
  }

  // The sends of the ticks are exactly those of the firings.
  lemma {:induction false} TicksSends(cfg: Config, clock: Clock, n: nat, s: Sending)
    ensures s in Ticks(cfg, clock, n) <==> exists i: nat :: i < n && SentAt(cfg, clock, i, s)
  {
    hide SentAt, Tick;
    if n > 0 {
      TicksSends(cfg, clock, n - 1, s);
      TickSends(cfg, clock, n - 1, s);
    }
  }
}
