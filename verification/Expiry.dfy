// A neighbor whose state expires.  Every item of its state has a timer that a
// message restarts, and is dropped when that runs out; the periods of the main loop
// keep all timers of the configured state running.
module Expiry {
  import opened JoinPrune
  import opened FirstFit
  import opened InverseFit
  import opened Conservation
  import opened Neighbor
  import opened Wire
  import opened EndToEnd
  import opened Timing
  import S = Scheduler

  datatype Item = Star(group: Address) | Join(sg: SG) | Prune(sg: SG)

  // The state, and until when each item is held.
  datatype Timed = Timed(st: State, until: map<Item, nat>)

  const NOTHING := Timed(NO_STATE, map[])

  // ---- Expiry ----

  predicate Live(t: Timed, now: nat, it: Item) {
    it in t.until && now < t.until[it]
  }

  // What is left of the state at a time.
  function View(t: Timed, now: nat): State {
    State(
      map a | a in t.st.star && Live(t, now, Star(a)) :: t.st.star[a],
      (set x | x in t.st.joined && Live(t, now, Join(x))),
      (set x | x in t.st.pruned && Live(t, now, Prune(x))),
      t.st.tmp)
  }

  predicate Has(st: State, it: Item) {
    match it
    case Star(a) => a in st.star
    case Join(x) => x in st.joined
    case Prune(x) => x in st.pruned
  }

  // The items whose timers a message restarts.
  function Restarted(u: Update): set<Item> {
    (set e, s | e in u && s in e.joins && s.wildcard && s.rpt :: Star(e.group)) +
    (set e, s | e in u && s in e.joins && !s.wildcard && !s.rpt :: Join(SG(e.group, s.addr))) +
    (set e, s | e in u && s in e.prunes && !s.wildcard && s.rpt :: Prune(SG(e.group, s.addr)))
  }

  function HoldOf(m: Message): nat {
    S.NANOS_IN_SECOND * m.holdtime
  }

  // A timer that runs is set to the later of its end and the message's hold time.
  function Until(t: Timed, it: Item, at: nat, end: nat): nat {
    if Has(t.st, it) && Live(t, at, it) && t.until[it] > end then t.until[it] else end
  }

  // A message that arrives: what has expired is gone before it is handled.
  function Hear(t: Timed, m: Message, at: nat): Timed {
    Timed(Receive(View(t, at), m.groups),
          t.until + (map it | it in Restarted(m.groups) :: Until(t, it, at, at + HoldOf(m))))
  }

  function HearAll(sends: seq<S.Sending>, ms: seq<Message>, inverse: seq<Message>): Timed {
    if sends == [] then NOTHING
    else
      var t, s := HearAll(sends[..|sends| - 1], ms, inverse), sends[|sends| - 1];
      match s.packet
      case Update(k) => if k < |ms| then Hear(t, ms[k], s.at) else t
      case InverseUpdate(k) => if k < |inverse| then Hear(t, inverse[k], s.at) else t
      case Hello => t
      case Goodbye => t
  }

  // The unexpired state at a time, after the packets of the sends have arrived.
  function StateAt(cfg: JPConfig, link: Link, sends: seq<S.Sending>, now: nat): State {
    View(HearAll(sends, Heard(Packed(cfg), link), Heard(InversePacked(cfg), link)), now)
  }

  // ---- One message ----

  lemma ViewHas(t: Timed, now: nat, it: Item)
    ensures Has(View(t, now), it) <==> Has(t.st, it) && Live(t, now, it)
  {
  }

  lemma ViewWithin(t: Timed, now: nat)
    ensures Within(View(t, now), t.st)
  {
  }

  lemma WithinHas(st: State, t: State, it: Item)
    requires Within(st, t) && Has(st, it)
    ensures Has(t, it)
  {
  }

  lemma {:induction false} InAddresses(ss: seq<Source>, s: Source)
    requires s in ss
    ensures s.addr in Addresses(ss, s.wildcard)
  {
    var n := |ss| - 1;
    if s != ss[n] {
      assert ss == ss[..n] + [ss[n]];
      InAddresses(ss[..n], s);
    }
  }

  // What a message restarts it also shows.
  lemma RestartedShown(u: Update, st: State, it: Item)
    requires forall e :: e in u ==> Shows(st, e)
    requires it in Restarted(u)
    ensures Has(st, it)
  {
    hide Addresses;
    match it
    case Star(a) =>
      var e, s :| e in u && s in e.joins && s.wildcard && s.rpt && a == e.group;
      InAddresses(e.joins, s);
    case Join(x) =>
      var e, s :| e in u && s in e.joins && !s.wildcard && !s.rpt && x == SG(e.group, s.addr);
      InAddresses(e.joins, s);
      assert x in Pairs(e.group, Addresses(e.joins, false));
    case Prune(x) =>
      var e, s :| e in u && s in e.prunes && !s.wildcard && s.rpt && x == SG(e.group, s.addr);
      InAddresses(e.prunes, s);
      assert x in Pairs(e.group, Addresses(e.prunes, false));
  }

  // The item is there and held at least until the given time.
  ghost predicate Held(t: Timed, it: Item, end: nat) {
    Has(t.st, it) && it in t.until && t.until[it] >= end
  }

  lemma HearHolds(t: Timed, m: Message, cfg: JPConfig, at: nat)
    requires DistinctGroups(cfg) && Chunks(m.groups, cfg) && Within(t.st, Wanted(cfg))
    ensures var t' := Hear(t, m, at);
            && Within(t'.st, Wanted(cfg))
            && (forall it :: it in Restarted(m.groups) ==> Held(t', it, at + HoldOf(m)))
            && (forall it, end: nat :: Held(t, it, end) && at < end ==> Held(t', it, end))
  {
    hide Wanted, Chunks, View, Receive, Restarted, Has, Within, Shows;
    var v, t' := View(t, at), Hear(t, m, at);
    ViewWithin(t, at);
    WithinTwice(v, t.st, Wanted(cfg));
    MessageEffect(v, m.groups, cfg);
    forall it | it in Restarted(m.groups)
      ensures Held(t', it, at + HoldOf(m))
    {
      RestartedShown(m.groups, t'.st, it);
    }
    forall it, end: nat | Held(t, it, end) && at < end
      ensures Held(t', it, end)
    {
      ViewHas(t, at, it);
      WithinHas(v, t'.st, it);
    }
  }

  // ---- A run ----

  ghost predicate Ordered(sends: seq<S.Sending>) {
    forall i, j :: 0 <= i < j < |sends| ==> sends[i].at <= sends[j].at
  }

  ghost predicate OnlyUpdates(sends: seq<S.Sending>, n: nat) {
    forall x :: x in sends ==> x.packet.Hello? || (x.packet.Update? && x.packet.k < n)
  }

  // Every item that a send restarts whose hold time is not over is held for that time.
  ghost predicate Recorded(t: Timed, sends: seq<S.Sending>, ms: seq<Message>, now: nat)
    requires OnlyUpdates(sends, |ms|)
  {
    forall s, it ::
      (s in sends && s.packet.Update? && now < s.at + HoldOf(ms[s.packet.k])
       && it in Restarted(ms[s.packet.k].groups)) ==> Held(t, it, s.at + HoldOf(ms[s.packet.k]))
  }

  lemma RecordedMore(cfg: JPConfig, t: Timed, p: seq<S.Sending>, x: S.Sending, ms: seq<Message>, now: nat)
    requires DistinctGroups(cfg) && OnlyUpdates(p + [x], |ms|) && OnlyUpdates(p, |ms|)
    requires x.packet.Update? && x.packet.k < |ms| && Chunks(ms[x.packet.k].groups, cfg) && Within(t.st, Wanted(cfg))
    requires now <= x.at && forall s :: s in p ==> s.at <= x.at
    requires Recorded(t, p, ms, now)
    ensures var t' := Hear(t, ms[x.packet.k], x.at);
            Within(t'.st, Wanted(cfg)) && Recorded(t', p + [x], ms, x.at)
  {
    hide Wanted, Chunks, Restarted, Held, Hear, Within, HoldOf;
    var t' := Hear(t, ms[x.packet.k], x.at);
    HearHolds(t, ms[x.packet.k], cfg, x.at);
    forall s, it | s in p + [x] && s.packet.Update? && x.at < s.at + HoldOf(ms[s.packet.k])
                   && it in Restarted(ms[s.packet.k].groups)
      ensures Held(t', it, s.at + HoldOf(ms[s.packet.k]))
    {
      if s != x {
        assert s in p && Held(t, it, s.at + HoldOf(ms[s.packet.k]));
      }
    }
  }

  lemma PrefixOrdered(sends: seq<S.Sending>, m: nat)
    requires sends != [] && Ordered(sends) && OnlyUpdates(sends, m)
    ensures var n := |sends| - 1;
            var p, x := sends[..n], sends[n];
            && sends == p + [x] && Ordered(p) && OnlyUpdates(p, m)
            && (x.packet.Hello? || (x.packet.Update? && x.packet.k < m))
            && (forall s :: s in p ==> s.at <= x.at)
            && (p != [] ==> p[n - 1].at <= x.at)
  {
    var n := |sends| - 1;
    OrderedPrefix(sends, n);
    var p := sends[..n];
    hide Ordered;
    assert sends[n] in sends;
    assert forall s :: s in p ==> s in sends;
  }

  lemma OrderedPrefix(sends: seq<S.Sending>, p: nat)
    requires Ordered(sends) && p <= |sends|
    ensures Ordered(sends[..p])
    ensures p < |sends| ==> forall s :: s in sends[..p] ==> s.at <= sends[p].at
  {
    var prefix := sends[..p];
    assert forall i :: 0 <= i < p ==> prefix[i] == sends[i];
  }

  lemma {:induction false} HearsAll(cfg: JPConfig, sends: seq<S.Sending>, ms: seq<Message>, inverse: seq<Message>,
                                    now: nat)
    requires DistinctGroups(cfg) && forall k :: 0 <= k < |ms| ==> Chunks(ms[k].groups, cfg)
    requires Ordered(sends) && OnlyUpdates(sends, |ms|)
    requires sends != [] ==> sends[|sends| - 1].at <= now
    ensures var t := HearAll(sends, ms, inverse);
            Within(t.st, Wanted(cfg)) && Recorded(t, sends, ms, now)
  {
    hide Wanted, Chunks, Restarted, Held, Hear, Within, Ordered;
    if sends == [] {
      NoStateWithin(cfg);
    } else {
      var n := |sends| - 1;
      var p, x := sends[..n], sends[n];
      PrefixOrdered(sends, |ms|);
      HearsAll(cfg, p, ms, inverse, x.at);
      if x.packet.Update? {
        RecordedMore(cfg, HearAll(p, ms, inverse), p, x, ms, x.at);
      }
    }
  }

  // Every item that is wanted is restarted by some packed update.
  lemma WantedRestarted(cfg: JPConfig, it: Item) returns (k: nat)
    requires DistinctGroups(cfg) && Has(Wanted(cfg), it)
    ensures k < |Packed(cfg)| && it in Restarted(Packed(cfg)[k])
  {
    hide Packed, IsChunk, JoinedBy, BlockBy;
    var us := Packed(cfg);
    var es := set u, e | u in us && e in u :: e;
    PackedChunks(cfg);
    match it
    case Star(a) =>
      var g :| g in cfg && g.rpt.Some? && g.group == a;
      k := BlockRestarts(cfg, es, g, it);
    case Join(x) =>
      var g :| g in cfg && x.source in g.spt && g.group == x.group;
      AllPacked(cfg, es, g);
      assert x == SG(g.group, x.source);
      k := JoinRestarts(cfg, es, x);
    case Prune(x) =>
      var g :| g in cfg && g.rpt.Some? && x.source in g.rpt.value.prunes && g.group == x.group;
      k := BlockRestarts(cfg, es, g, it);
  }

  lemma JoinRestarts(cfg: JPConfig, es: set<GroupEntry>, x: SG) returns (k: nat)
    requires DistinctGroups(cfg) && es == (set u, e | u in Packed(cfg) && e in u :: e)
    requires JoinedBy(es, x)
    ensures k < |Packed(cfg)| && Join(x) in Restarted(Packed(cfg)[k])
  {
    hide Packed, IsChunk, Addresses;
    PackedChunks(cfg);
    var us := Packed(cfg);
    var e :| e in es && e.group == x.group && x.source in Addresses(e.joins, false);
    var u :| u in us && e in u;
    k :| k < |us| && us[k] == u;
    var g :| g in cfg && IsChunk(e, g);
    ChunkJoins(e, g, x.source);
    JoinIn(us[k], e, x);
  }

  lemma JoinIn(u: Update, e: GroupEntry, x: SG)
    requires e in u && e.group == x.group && Source(x.source, false, false) in e.joins
    ensures Join(x) in Restarted(u)
  {
  }

  lemma ChunkJoins(e: GroupEntry, g: GroupConfig, s: Address)
    requires IsChunk(e, g) && s in Addresses(e.joins, false)
    ensures Source(s, false, false) in e.joins
  {
    hide Addresses;
    var srcs := Addresses(e.joins, false);
    var i :| 0 <= i < |srcs| && srcs[i] == s;
    assert e.joins[i] == Source(s, false, false);
  }

  lemma BlockRestarts(cfg: JPConfig, es: set<GroupEntry>, g: GroupConfig, it: Item) returns (k: nat)
    requires DistinctGroups(cfg) && es == (set u, e | u in Packed(cfg) && e in u :: e)
    requires g in cfg && g.rpt.Some?
    requires it == Star(g.group) || (it.Prune? && it.sg.group == g.group && it.sg.source in g.rpt.value.prunes)
    ensures k < |Packed(cfg)| && it in Restarted(Packed(cfg)[k])
  {
    hide Packed, IsChunk, HasBlock;
    PackedChunks(cfg);
    AllPacked(cfg, es, g);
    var us := Packed(cfg);
    var e :| e in es && e.group == g.group && HasBlock(e);
    var u :| u in us && e in u;
    k :| k < |us| && us[k] == u;
    var h :| h in cfg && IsChunk(e, h);
    ChunkParts(e, h);
    assert h == g;
    BlockSources(e, g);
    if it.Prune? {
      assert Source(it.sg.source, false, true) in e.prunes;
    }
  }

  lemma BlockSources(e: GroupEntry, g: GroupConfig)
    requires IsChunk(e, g) && HasBlock(e)
    ensures g.rpt.Some? && Source(g.rpt.value.rp, true, true) in e.joins
    ensures forall s :: s in g.rpt.value.prunes ==> Source(s, false, true) in e.prunes
  {
    forall s | s in g.rpt.value.prunes
      ensures Source(s, false, true) in e.prunes
    {
      var i :| 0 <= i < |g.rpt.value.prunes| && g.rpt.value.prunes[i] == s;
      assert e.prunes[i] == Source(s, false, true);
    }
  }

  lemma ViewIsWanted(cfg: JPConfig, t: Timed, now: nat)
    requires DistinctGroups(cfg) && Within(t.st, Wanted(cfg))
    requires forall it :: Has(Wanted(cfg), it) ==> Has(t.st, it) && Live(t, now, it)
    ensures View(t, now) == Wanted(cfg)
  {
    var v, w := View(t, now), Wanted(cfg);
    NoStateWithin(cfg);
    hide Wanted;
    ViewWithin(t, now);
    WithinTwice(v, t.st, w);
    forall it | Has(w, it)
      ensures Has(v, it)
    {
      ViewHas(t, now, it);
    }
    assert forall a :: a in w.star ==> Has(w, Star(a)) && Has(v, Star(a));
    assert forall x :: x in w.joined ==> Has(w, Join(x)) && Has(v, Join(x));
    assert forall x :: x in w.pruned ==> Has(w, Prune(x)) && Has(v, Prune(x));
    WithinBoth(v, w);
  }

  ghost predicate SentSince(sends: seq<S.Sending>, k: nat, now: nat, hold: nat) {
    exists s :: s in sends && s.packet == S.Update(k) && now < s.at + hold
  }

  // If every update was sent less than the hold time ago, all of the configured
  // state is there.
  lemma AllHeld(cfg: JPConfig, link: Link, sends: seq<S.Sending>, now: nat)
    requires Sendable(cfg, link)
    requires Ordered(sends) && OnlyUpdates(sends, |Packed(cfg)|)
    requires sends != [] ==> sends[|sends| - 1].at <= now
    requires forall k: nat :: k < |Packed(cfg)| ==> SentSince(sends, k, now, S.NANOS_IN_SECOND * link.holdtime)
    ensures StateAt(cfg, link, sends, now) == Wanted(cfg)
  {
    hide Packed, InversePacked, Wanted, Restarted, Within, View, HearAll, Has, Chunks, Heard, Held;
    var us, ms, inverse := Packed(cfg), Heard(Packed(cfg), link), Heard(InversePacked(cfg), link);
    EachHeard(cfg, link);
    var t := HearAll(sends, ms, inverse);
    HearsAll(cfg, sends, ms, inverse, now);
    forall it | Has(Wanted(cfg), it)
      ensures Has(t.st, it) && Live(t, now, it)
    {
      var k := WantedRestarted(cfg, it);
      assert SentSince(sends, k, now, S.NANOS_IN_SECOND * link.holdtime);
      var s :| s in sends && s.packet == S.Update(k) && now < s.at + S.NANOS_IN_SECOND * link.holdtime;
      assert Held(t, it, s.at + HoldOf(ms[k]));
      HeldIsLive(t, it, s.at + HoldOf(ms[k]), now);
    }
    ViewIsWanted(cfg, t, now);
  }

  lemma HeldIsLive(t: Timed, it: Item, end: nat, now: nat)
    requires Held(t, it, end) && now < end
    ensures Has(t.st, it) && Live(t, now, it)
  {
  }

  lemma EachHeard(cfg: JPConfig, link: Link)
    requires Sendable(cfg, link)
    ensures |Heard(Packed(cfg), link)| == |Packed(cfg)|
    ensures forall k :: 0 <= k < |Packed(cfg)| ==>
              var m := Heard(Packed(cfg), link)[k];
              m.groups == Packed(cfg)[k] && HoldOf(m) == S.NANOS_IN_SECOND * link.holdtime && Chunks(m.groups, cfg)
  {
    HeardCount(Packed(cfg), link);
    AllHeard(cfg, link);
    PackedChunks(cfg);
    hide Packed, Heard, Chunks;
    assert forall k :: 0 <= k < |Packed(cfg)| ==> Packed(cfg)[k] in Packed(cfg);
  }

  lemma HeardCount(us: seq<Update>, link: Link)
    ensures |Heard(us, link)| == |us|
  {
  }

  // ---- Nothing is held for longer ----

  // No item is held beyond the given time.
  ghost predicate EndsBy(t: Timed, end: nat) {
    t.st.tmp == {} && forall it :: it in t.until ==> t.until[it] <= end
  }

  lemma HearEndsBy(t: Timed, m: Message, at: nat, end: nat)
    requires EndsBy(t, end) && at + HoldOf(m) <= end
    ensures EndsBy(Hear(t, m, at), end)
  {
    hide View, Restarted, OnEntries, Has;
  }

  // The messages that the sends deliver are over by the given time.
  ghost predicate OverBy(sends: seq<S.Sending>, ms: seq<Message>, inverse: seq<Message>, end: nat) {
    forall s :: s in sends ==>
      && (s.packet.Update? && s.packet.k < |ms| ==> s.at + HoldOf(ms[s.packet.k]) <= end)
      && (s.packet.InverseUpdate? && s.packet.k < |inverse| ==> s.at + HoldOf(inverse[s.packet.k]) <= end)
  }

  lemma {:induction false} AllEndBy(sends: seq<S.Sending>, ms: seq<Message>, inverse: seq<Message>, end: nat)
    requires OverBy(sends, ms, inverse, end)
    ensures EndsBy(HearAll(sends, ms, inverse), end)
  {
    hide Hear, EndsBy, HoldOf;
    if sends == [] {
      NothingEnds(end);
    } else {
      var n := |sends| - 1;
      var p, x := sends[..n], sends[n];
      assert forall s :: s in p ==> s in sends;
      assert x in sends;
      AllEndBy(p, ms, inverse, end);
      var t := HearAll(p, ms, inverse);
      if x.packet.Update? && x.packet.k < |ms| {
        HearEndsBy(t, ms[x.packet.k], x.at, end);
      } else if x.packet.InverseUpdate? && x.packet.k < |inverse| {
        HearEndsBy(t, inverse[x.packet.k], x.at, end);
      }
    }
  }

  lemma NothingEnds(end: nat)
    ensures EndsBy(NOTHING, end)
  {
  }

  lemma EndedIsEmpty(t: Timed, now: nat)
    requires EndsBy(t, now)
    ensures View(t, now) == NO_STATE
  {
    var v := View(t, now);
    assert v.star.Keys == {} && v.joined == {} && v.pruned == {};
  }

  // Whatever was sent and in whatever order: when the hold time, in nanoseconds, is over
  // since every update and inverse update, nothing is left of the state.
  lemma StateExpires(cfg: JPConfig, link: Link, sends: seq<S.Sending>, now: nat)
    requires Sendable(cfg, link)
    requires forall s :: s in sends ==>
               s.packet.Hello? || s.packet.Goodbye? || s.at + 1_000_000_000 * link.holdtime <= now
    ensures StateAt(cfg, link, sends, now) == NO_STATE
  {
    hide Packed, InversePacked, Heard, HearAll, View;
    var ms, inverse := Heard(Packed(cfg), link), Heard(InversePacked(cfg), link);
    HeardCount(Packed(cfg), link);
    HeardCount(InversePacked(cfg), link);
    AllHeard(cfg, link);
    AllEndBy(sends, ms, inverse, now);
    EndedIsEmpty(HearAll(sends, ms, inverse), now);
  }

  // ---- A run on a steady clock ----

  lemma {:induction false} ClockGrows(clock: S.Clock, gap: nat, i: nat, j: nat)
    requires Steady(clock, gap) && i <= j
    ensures clock(i) <= clock(j)
    decreases j
  {
    if i < j {
      ClockGrows(clock, gap, i, j - 1);
      assert clock(j - 1) <= clock(j - 1 + 1);
    }
  }

  lemma {:induction false} TicksOrdered(s: S.Config, clock: S.Clock, gap: nat, n: nat)
    requires Steady(clock, gap)
    ensures Ordered(S.Ticks(s, clock, n))
    ensures forall x :: x in S.Ticks(s, clock, n) ==> x.at <= clock(n)
  {
    if n > 0 {
      var before, tick := S.Ticks(s, clock, n - 1), S.Tick(s, clock, n - 1);
      TicksOrdered(s, clock, gap, n - 1);
      assert clock(n - 1) <= clock(n - 1 + 1);
      assert forall x :: x in tick ==> x.at == clock(n);
      hide S.Tick;
      var all := before + tick;
      forall i, j | 0 <= i < j < |all|
        ensures all[i].at <= all[j].at
      {
        assert all[i] in before || all[i] in tick;
        assert j >= |before| ==> all[j] in tick;
      }
    }
  }

  // The times from the last send of a run's first p sends, within tick j or between
  // it and the tick before, to the next tick.
  ghost predicate During(s: S.Config, clock: S.Clock, j: nat, p: nat, now: nat) {
    && |S.Ticks(s, clock, j)| <= p <= |S.Ticks(s, clock, j + 1)|
    && (if p == |S.Ticks(s, clock, j)| then clock(j) <= now <= clock(j + 1) else now == clock(j + 1))
  }

  lemma PrefixTimes(s: S.Config, clock: S.Clock, gap: nat, j: nat, p: nat, now: nat)
    requires Steady(clock, gap) && During(s, clock, j, p, now)
    ensures Ordered(S.Ticks(s, clock, j + 1)[..p])
    ensures p > 0 ==> S.Ticks(s, clock, j + 1)[p - 1].at <= now
  {
    TicksOrdered(s, clock, gap, j + 1);
    TicksOrdered(s, clock, gap, j);
    var all, before := S.Ticks(s, clock, j + 1), S.Ticks(s, clock, j);
    S.TicksMore(s, clock, j);
    OrderedPrefix(all, p);
    hide S.Ticks, S.Tick, Ordered;
    if p > 0 && p == |before| {
      assert all[p - 1] == before[p - 1] && before[p - 1] in before;
    } else if p > 0 {
      assert all[p - 1] in all;
    }
  }

  // No lapse.  If the hold time covers a period and a gap of the clock, then from the
  // first complete round on the neighbor has exactly the configured state at every
  // time until the run is stopped, none of it having expired.
  lemma NoStateLapses(cfg: JPConfig, link: Link, s: S.Config, clock: S.Clock, gap: nat, j: nat, p: nat, now: nat)
    requires Sendable(cfg, link) && Schedules(s, cfg)
    requires Steady(clock, gap) && s.jpPeriod > 0
    requires S.NANOS_IN_SECOND * s.jpPeriod + gap <= S.NANOS_IN_SECOND * link.holdtime
    requires SomeRound(s, clock, j) && During(s, clock, j, p, now)
    ensures StateAt(cfg, link, S.Ticks(s, clock, j + 1)[..p], now) == Wanted(cfg)
  {
    assert clock(j) <= clock(j + 1) && p <= |S.Ticks(s, clock, j + 1)|;
    hide *;
    var sends := S.Ticks(s, clock, j + 1)[..p];
    var r := LastRound(s, clock, gap, j);
    PrefixTimes(s, clock, gap, j, p, now);
    PrefixUpdates(cfg, s, clock, j, p, now);
    forall k: nat | k < |Packed(cfg)|
      ensures SentSince(sends, k, now, S.NANOS_IN_SECOND * link.holdtime)
    {
      UpdateSent(cfg, s, clock, j, p, now, S.NANOS_IN_SECOND * link.holdtime, r, k);
    }
    PrefixLast(s, clock, j, p);
    AllHeld(cfg, link, sends, now);
  }

  lemma PrefixLast(s: S.Config, clock: S.Clock, j: nat, p: nat)
    requires p <= |S.Ticks(s, clock, j + 1)|
    ensures var sends := S.Ticks(s, clock, j + 1)[..p];
            |sends| == p && (sends != [] ==> p > 0 && sends[|sends| - 1] == S.Ticks(s, clock, j + 1)[p - 1])
  {
  }

  lemma LastRound(s: S.Config, clock: S.Clock, gap: nat, j: nat) returns (r: nat)
    requires Steady(clock, gap) && s.jpPeriod > 0 && SomeRound(s, clock, j)
    ensures r < j && S.RoundFires(s, clock, r)
    ensures clock(j + 1) < clock(r + 1) + S.NANOS_IN_SECOND * s.jpPeriod + gap
  {
    var first := clock(0) + S.NANOS_IN_SECOND * s.jpPeriod;
    var last := LastFiring(clock, first, s.jpPeriod, j);
    var i: nat :| i < j && S.RoundFires(s, clock, i);
    assert S.Fires(clock, first, s.jpPeriod, i);
    r := last;
    NoLapse(clock, first, s.jpPeriod, gap, r, j);
  }

  lemma PrefixUpdates(cfg: JPConfig, s: S.Config, clock: S.Clock, j: nat, p: nat, now: nat)
    requires Schedules(s, cfg) && During(s, clock, j, p, now)
    ensures OnlyUpdates(S.Ticks(s, clock, j + 1)[..p], |Packed(cfg)|)
  {
    hide Packed, InversePacked, S.Ticks;
    TicksPackets(s, clock, j + 1);
    var ticks := S.Ticks(s, clock, j + 1);
    assert forall x :: x in ticks[..p] ==> x in ticks;
  }

  lemma UpdateSent(cfg: JPConfig, s: S.Config, clock: S.Clock, j: nat, p: nat, now: nat, hold: nat, r: nat, k: nat)
    requires Schedules(s, cfg) && During(s, clock, j, p, now) && k < |Packed(cfg)|
    requires r < j && S.RoundFires(s, clock, r) && clock(j + 1) < clock(r + 1) + hold && clock(j) <= clock(j + 1)
    ensures SentSince(S.Ticks(s, clock, j + 1)[..p], k, now, hold)
  {
    hide Packed, InversePacked, S.Ticks, S.RoundFires;
    TicksGrow(s, clock, r + 1, j);
    RoundSent(s, clock, r, j + 1, p, k);
    assert now <= clock(j + 1);
    assert S.Sending(clock(r + 1), S.Update(k)).at == clock(r + 1);
  }

  // With the built-in 60 second period and 210 second hold time, ticks may be up to
  // 150 seconds apart.
  lemma BuiltInStateHolds(cfg: JPConfig, link: Link, s: S.Config, clock: S.Clock, gap: nat, j: nat, p: nat, now: nat)
    requires Sendable(cfg, link) && link.holdtime == 210
    requires Schedules(s, cfg) && s.jpPeriod == 60
    requires Steady(clock, gap) && gap <= 150 * S.NANOS_IN_SECOND
    requires SomeRound(s, clock, j) && During(s, clock, j, p, now)
    ensures StateAt(cfg, link, S.Ticks(s, clock, j + 1)[..p], now) == Wanted(cfg)
  {
    NoStateLapses(cfg, link, s, clock, gap, j, p, now);
  }
}
