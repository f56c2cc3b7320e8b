// From the configuration to the neighbor, over whole runs and over the wire: the
// packets that the main loop sends keep the neighbor in the configured state.
module EndToEnd {
  import opened JoinPrune
  import opened FirstFit
  import opened InverseFit
  import opened InverseTheorems
  import opened Neighbor
  import opened Wire
  import opened Checksum
  import opened Loader
  import opened Startup
  import UpdatePacket
  import Goodbye
  import S = Scheduler

  // The scheduler's configuration for a packed configuration.
  ghost predicate Schedules(s: S.Config, cfg: JPConfig) {
    s.updates == |Packed(cfg)| && s.inverseUpdates == |InversePacked(cfg)|
  }

  // ---- Over the wire ----

  // The addresses of pimc and its neighbor, and the hold time in seconds.
  datatype Link = Link(source: Address, neighbor: Address, holdtime: nat)

  // A whole IPv4 packet for PIM routers that is to be taken from the link.
  predicate ForPIM(h: IPv4Header, size: nat) {
    && h.version == 4 && h.words == 5 && h.total == size && h.fragment == 0
    && h.ttl > 0 && h.protocol == 103 && h.destination == 0xe000_000d
  }

  // The message that a router reads from a packet, if it is one for that router.
  function Accepted(packet: seq<byte>, me: Address): Option<Message> {
    match DecodeIPv4(packet)
    case None => None
    case Some(h) =>
      if |packet| < 20 || !ForPIM(h, |packet|) then None
      else match DecodeMessage(packet[20..])
        case None => None
        case Some(m) => if m.neighbor == me then Some(m) else None
  }

  // What the neighbor reads from the packets of a list of updates; a packet that it
  // does not accept has no effect.
  function Heard(us: seq<Update>, link: Link): seq<Message> {
    seq(|us|, k requires 0 <= k < |us| =>
      match Accepted(PacketBytes(us[k], link.source, link.neighbor, link.holdtime), link.neighbor)
      case None => Message(link.neighbor, 0, [])
      case Some(m) => m)
  }

  function Read(us: seq<Update>, link: Link): seq<Update> {
    seq(|us|, k requires 0 <= k < |us| => Heard(us, link)[k].groups)
  }

  // What the packer and the packets ask for.
  ghost predicate Sendable(cfg: JPConfig, link: Link) {
    DistinctGroups(cfg) && (forall g :: g in cfg ==> PrunesBounded(g)) && link.holdtime < 0x1_0000
  }

  lemma HeardOne(u: Update, link: Link)
    requires DecodeMessage(PacketBytes(u, link.source, link.neighbor, link.holdtime)[IPV4_HDR_SIZE..])
          == Some(Message(link.neighbor, link.holdtime, u))
    requires |PacketBytes(u, link.source, link.neighbor, link.holdtime)| == PacketSize(u) <= 1500
    ensures Accepted(PacketBytes(u, link.source, link.neighbor, link.holdtime), link.neighbor)
         == Some(Message(link.neighbor, link.holdtime, u))
  {
    var sealed := Sealed(MessageBytes(u, link.neighbor, link.holdtime), 2);
    assert PacketBytes(u, link.source, link.neighbor, link.holdtime)
        == IPv4HeaderBytes(PacketSize(u), link.source) + sealed;
    IPv4HeaderBack(PacketSize(u), link.source, sealed);
    hide DecodeMessage, PacketBytes, PacketSize, DecodeIPv4;
  }

  lemma HeardIsSent(us: seq<Update>, link: Link)
    requires forall u :: u in us ==>
               && |PacketBytes(u, link.source, link.neighbor, link.holdtime)| == PacketSize(u) <= 1500
               && DecodeMessage(PacketBytes(u, link.source, link.neighbor, link.holdtime)[IPV4_HDR_SIZE..])
               == Some(Message(link.neighbor, link.holdtime, u))
    ensures forall k :: 0 <= k < |us| ==> Heard(us, link)[k] == Message(link.neighbor, link.holdtime, us[k])
    ensures Read(us, link) == us
  {
    hide DecodeMessage, PacketBytes, PacketSize, Accepted;
    forall k | 0 <= k < |us|
      ensures Heard(us, link)[k] == Message(link.neighbor, link.holdtime, us[k])
    {
      assert us[k] in us;
      HeardOne(us[k], link);
    }
  }

  // The neighbor reads all that is sent, both ways.
  lemma AllHeard(cfg: JPConfig, link: Link)
    requires Sendable(cfg, link)
    ensures forall k :: 0 <= k < |Packed(cfg)| ==>
              Heard(Packed(cfg), link)[k] == Message(link.neighbor, link.holdtime, Packed(cfg)[k])
    ensures Read(Packed(cfg), link) == Packed(cfg)
    ensures forall k :: 0 <= k < |InversePacked(cfg)| ==>
              Heard(InversePacked(cfg), link)[k] == Message(link.neighbor, link.holdtime, InversePacked(cfg)[k])
    ensures Read(InversePacked(cfg), link) == InversePacked(cfg)
  {
    hide *;
    assert DistinctGroups(cfg) && (forall g :: g in cfg ==> PrunesBounded(g)) && link.holdtime < 0x1_0000 by {
      SendableParts(cfg, link);
    }
    UpdatePacket.PackedPackets(cfg, link.source, link.neighbor, link.holdtime);
    UpdatePacket.InversePackets(cfg, link.source, link.neighbor, link.holdtime);
    HeardIsSent(Packed(cfg), link);
    HeardIsSent(InversePacked(cfg), link);
  }

  lemma SendableParts(cfg: JPConfig, link: Link)
    requires Sendable(cfg, link)
    ensures DistinctGroups(cfg) && (forall g :: g in cfg ==> PrunesBounded(g)) && link.holdtime < 0x1_0000
  {
  }

  // The neighbor's state after the packets of the sends have arrived.
  function Delivered(cfg: JPConfig, link: Link, sends: seq<S.Sending>): State {
    Deliver(NO_STATE, sends, Read(Packed(cfg), link), Read(InversePacked(cfg), link))
  }

  lemma DeliveredIs(cfg: JPConfig, link: Link, sends: seq<S.Sending>)
    requires Sendable(cfg, link)
    ensures DistinctGroups(cfg)
    ensures Delivered(cfg, link, sends) == Deliver(NO_STATE, sends, Packed(cfg), InversePacked(cfg))
  {
    hide Packed, InversePacked, Read, Deliver;
    AllHeard(cfg, link);
  }

  // ---- Runs ----

  // The neighbor's state after the sends of updates; Hellos do not change it.
  function Deliver(st: State, sends: seq<S.Sending>, us: seq<Update>, inverse: seq<Update>): State {
    if sends == [] then st
    else
      var st' := Deliver(st, sends[..|sends| - 1], us, inverse);
      match sends[|sends| - 1].packet
      case Update(k) => if k < |us| then Receive(st', us[k]) else st'
      case InverseUpdate(k) => if k < |inverse| then Receive(st', inverse[k]) else st'
      case Hello => st'
      case Goodbye => st'
  }

  // The update packets among the sends.
  function UpdatesIn(sends: seq<S.Sending>): seq<nat> {
    if sends == [] then []
    else UpdatesIn(sends[..|sends| - 1]) +
         (if sends[|sends| - 1].packet.Update? then [sends[|sends| - 1].packet.k] else [])
  }

  function InversesIn(sends: seq<S.Sending>): seq<nat> {
    if sends == [] then []
    else InversesIn(sends[..|sends| - 1]) +
         (if sends[|sends| - 1].packet.InverseUpdate? then [sends[|sends| - 1].packet.k] else [])
  }

  lemma {:induction false} DeliverUpdates(st: State, sends: seq<S.Sending>, us: seq<Update>, inverse: seq<Update>)
    requires forall s :: s in sends ==> s.packet.Hello? || (s.packet.Update? && s.packet.k < |us|)
    ensures forall k :: 0 <= k < |UpdatesIn(sends)| ==> UpdatesIn(sends)[k] < |us|
    ensures Deliver(st, sends, us, inverse) == ReceiveRun(st, us, UpdatesIn(sends))
  {
    hide Receive;
    if sends != [] {
      var n := |sends| - 1;
      var p := sends[..n];
      assert forall s :: s in p ==> s in sends;
      DeliverUpdates(st, p, us, inverse);
      assert sends[n] in sends;
      if sends[n].packet.Update? {
        assert UpdatesIn(sends) == UpdatesIn(p) + [sends[n].packet.k];
        assert UpdatesIn(sends)[..|UpdatesIn(sends)| - 1] == UpdatesIn(p);
      } else {
        assert UpdatesIn(p) + [] == UpdatesIn(p);
      }
    }
  }

  lemma {:induction false} DeliverInverses(st: State, sends: seq<S.Sending>, us: seq<Update>, inverse: seq<Update>)
    requires forall s :: s in sends ==> s.packet.Goodbye? || (s.packet.InverseUpdate? && s.packet.k < |inverse|)
    ensures forall k :: 0 <= k < |InversesIn(sends)| ==> InversesIn(sends)[k] < |inverse|
    ensures Deliver(st, sends, us, inverse) == ReceiveRun(st, inverse, InversesIn(sends))
  {
    hide Receive;
    if sends != [] {
      var n := |sends| - 1;
      var p := sends[..n];
      assert forall s :: s in p ==> s in sends;
      DeliverInverses(st, p, us, inverse);
      assert sends[n] in sends;
      if sends[n].packet.InverseUpdate? {
        assert InversesIn(sends) == InversesIn(p) + [sends[n].packet.k];
        assert InversesIn(sends)[..|InversesIn(sends)| - 1] == InversesIn(p);
      } else {
        assert InversesIn(p) + [] == InversesIn(p);
      }
    }
  }

  lemma {:induction false} DeliverAppend(st: State, a: seq<S.Sending>, b: seq<S.Sending>, us: seq<Update>,
                                         inverse: seq<Update>)
    ensures Deliver(st, a + b, us, inverse) == Deliver(Deliver(st, a, us, inverse), b, us, inverse)
  {
    hide Receive;
    if b == [] {
      assert a + b == a;
    } else {
      var n := |b| - 1;
      DeliverAppend(st, a, b[..n], us, inverse);
      assert (a + b)[..|a + b| - 1] == a + b[..n];
    }
  }

  lemma {:induction false} UpdateIncluded(sends: seq<S.Sending>, s: S.Sending)
    requires s in sends
    ensures s.packet.Update? ==> s.packet.k in UpdatesIn(sends)
    ensures s.packet.InverseUpdate? ==> s.packet.k in InversesIn(sends)
  {
    var n := |sends| - 1;
    if s != sends[n] {
      assert sends == sends[..n] + [sends[n]];
      UpdateIncluded(sends[..n], s);
    }
  }

  lemma {:induction false} TicksPackets(s: S.Config, clock: S.Clock, n: nat)
    ensures forall x :: x in S.Ticks(s, clock, n) ==>
              x.packet.Hello? || (x.packet.Update? && x.packet.k < s.updates)
  {
    hide S.Tick;
    if n > 0 {
      TicksPackets(s, clock, n - 1);
      TickPackets(s, clock, n - 1);
    }
  }

  lemma TickPackets(s: S.Config, clock: S.Clock, i: nat)
    ensures forall x :: x in S.Tick(s, clock, i) ==>
              x.packet.Hello? || (x.packet.Update? && x.packet.k < s.updates)
  {
  }

  // Soft state over a run.  At any point of the run behind its first complete
  // Join/Prune round, that is after every single packet from then until the stop,
  // the neighbor's state is exactly the configured one; before, it is within it.
  lemma StateDuringRun(cfg: JPConfig, link: Link, s: S.Config, clock: S.Clock, n: nat, p: nat)
    requires Sendable(cfg, link) && Schedules(s, cfg)
    requires p <= |S.Ticks(s, clock, n)|
    ensures var st := Delivered(cfg, link, S.Ticks(s, clock, n)[..p]);
            && Within(st, Wanted(cfg))
            && ((exists i: nat :: i < n && S.RoundFires(s, clock, i) && |S.Ticks(s, clock, i + 1)| <= p) ==>
                  st == Wanted(cfg))
  {
    hide Delivered, Deliver, Schedules;
    DeliveredIs(cfg, link, S.Ticks(s, clock, n)[..p]);
    StatePrefix(cfg, s, clock, n, p);
    if i: nat :| i < n && S.RoundFires(s, clock, i) && |S.Ticks(s, clock, i + 1)| <= p {
      StateBehindRound(cfg, s, clock, n, i, p);
    }
  }

  lemma StatePrefix(cfg: JPConfig, s: S.Config, clock: S.Clock, n: nat, p: nat)
    requires DistinctGroups(cfg) && Schedules(s, cfg)
    requires p <= |S.Ticks(s, clock, n)|
    ensures var sends := S.Ticks(s, clock, n)[..p];
            var st := Deliver(NO_STATE, sends, Packed(cfg), InversePacked(cfg));
            && Within(st, Wanted(cfg))
            && ((forall k: nat :: k < s.updates ==> k in UpdatesIn(sends)) ==> st == Wanted(cfg))
  {
    hide Packed, InversePacked, Wanted, S.Tick, Within;
    var sends := S.Ticks(s, clock, n)[..p];
    TicksPackets(s, clock, n);
    assert forall x :: x in sends ==> x in S.Ticks(s, clock, n);
    DeliverUpdates(NO_STATE, sends, Packed(cfg), InversePacked(cfg));
    NoStateWithin(cfg);
    NeighborFollows(cfg, NO_STATE, UpdatesIn(sends));
  }

  lemma StateBehindRound(cfg: JPConfig, s: S.Config, clock: S.Clock, n: nat, i: nat, p: nat)
    requires DistinctGroups(cfg) && Schedules(s, cfg)
    requires i < n && S.RoundFires(s, clock, i) && |S.Ticks(s, clock, i + 1)| <= p <= |S.Ticks(s, clock, n)|
    ensures Deliver(NO_STATE, S.Ticks(s, clock, n)[..p], Packed(cfg), InversePacked(cfg)) == Wanted(cfg)
  {
    hide *;
    var sends := S.Ticks(s, clock, n)[..p];
    StatePrefix(cfg, s, clock, n, p);
    forall k: nat | k < s.updates
      ensures k in UpdatesIn(sends)
    {
      RoundSent(s, clock, i, n, p, k);
      UpdateIncluded(sends, S.Sending(clock(i + 1), S.Update(k)));
    }
  }

  lemma NoStateWithin(cfg: JPConfig)
    requires DistinctGroups(cfg)
    ensures Within(NO_STATE, Wanted(cfg)) && Within(Wanted(cfg), Wanted(cfg)) && Wanted(cfg).tmp == {}
  {
  }

  lemma RoundSent(s: S.Config, clock: S.Clock, i: nat, n: nat, p: nat, k: nat)
    requires i < n && S.RoundFires(s, clock, i) && k < s.updates
    requires |S.Ticks(s, clock, i + 1)| <= p <= |S.Ticks(s, clock, n)|
    ensures S.Sending(clock(i + 1), S.Update(k)) in S.Ticks(s, clock, n)[..p]
  {
    var x := S.Sending(clock(i + 1), S.Update(k));
    TickHas(s, clock, i, k);
    hide S.Ticks, S.Tick;
    var ticks := S.Ticks(s, clock, i + 1);
    S.TicksMore(s, clock, i);
    assert x in ticks;
    var rest := S.TicksSplit(s, clock, i + 1, n);
    var j :| 0 <= j < |ticks| && ticks[j] == x;
    assert S.Ticks(s, clock, n)[..p][j] == x;
  }

  lemma TickHas(s: S.Config, clock: S.Clock, i: nat, k: nat)
    requires S.RoundFires(s, clock, i) && k < s.updates
    ensures S.Sending(clock(i + 1), S.Update(k)) in S.Tick(s, clock, i)
  {
    assert S.Round(s, clock(i + 1))[k] == S.Sending(clock(i + 1), S.Update(k));
  }

  // Some round is fired, and so sent in full, in the first n ticks.
  ghost predicate SomeRound(s: S.Config, clock: S.Clock, n: nat) {
    exists i: nat :: i < n && S.RoundFires(s, clock, i)
  }

  // What the ticks leave behind: the configured state, or nothing if no round fired.
  lemma StateAfterTicks(cfg: JPConfig, s: S.Config, clock: S.Clock, n: nat)
    requires DistinctGroups(cfg) && Schedules(s, cfg)
    ensures Deliver(NO_STATE, S.Ticks(s, clock, n), Packed(cfg), InversePacked(cfg))
         == if SomeRound(s, clock, n) then Wanted(cfg) else NO_STATE
  {
    hide *;
    if SomeRound(s, clock, n) {
      StateAfterRound(cfg, s, clock, n);
    } else {
      NoRoundSent(s, clock, n);
      NothingDelivered(NO_STATE, S.Ticks(s, clock, n), Packed(cfg), InversePacked(cfg));
    }
  }

  lemma StateAfterRound(cfg: JPConfig, s: S.Config, clock: S.Clock, n: nat)
    requires DistinctGroups(cfg) && Schedules(s, cfg) && SomeRound(s, clock, n)
    ensures Deliver(NO_STATE, S.Ticks(s, clock, n), Packed(cfg), InversePacked(cfg)) == Wanted(cfg)
  {
    var i: nat :| i < n && S.RoundFires(s, clock, i);
    hide *;
    TicksGrow(s, clock, i + 1, n);
    Whole(S.Ticks(s, clock, n));
    StateBehindRound(cfg, s, clock, n, i, |S.Ticks(s, clock, n)|);
  }

  lemma TicksGrow(s: S.Config, clock: S.Clock, i: nat, n: nat)
    requires i <= n
    ensures |S.Ticks(s, clock, i)| <= |S.Ticks(s, clock, n)|
  {
    hide *;
    var rest := S.TicksSplit(s, clock, i, n);
  }

  lemma Whole<T>(s: seq<T>)
    ensures s[..|s|] == s
  {
  }

  lemma {:induction false} NoRoundSent(s: S.Config, clock: S.Clock, n: nat)
    requires !SomeRound(s, clock, n)
    ensures forall x :: x in S.Ticks(s, clock, n) ==> x.packet.Hello?
  {
    if n > 0 {
      assert !S.RoundFires(s, clock, n - 1);
      NoRoundSent(s, clock, n - 1);
    }
  }

  lemma {:induction false} NothingDelivered(st: State, sends: seq<S.Sending>, us: seq<Update>, inverse: seq<Update>)
    requires forall x :: x in sends ==> x.packet.Hello?
    ensures Deliver(st, sends, us, inverse) == st
  {
    if sends != [] {
      NothingDelivered(st, sends[..|sends| - 1], us, inverse);
    }
  }

  // The end of a run.  When a stopped run has made all its sends, no (S,G) join is
  // left at the neighbor, and a (*,G) join is left exactly if a round was sent, for
  // the groups whose RP prune was lost.  The (S,G,rpt) prunes are left as they were.
  lemma StateAfterRun(cfg: JPConfig, link: Link, s: S.Config, clock: S.Clock, n: nat)
    requires Sendable(cfg, link) && Schedules(s, cfg)
    ensures var st := Delivered(cfg, link, S.Plan(s, clock, n));
            && st.joined == {}
            && st.pruned == (if SomeRound(s, clock, n) then Wanted(cfg).pruned else {})
            && st.star.Keys <= Wanted(cfg).star.Keys
            && (forall m :: 0 <= m < |cfg| ==>
                  (cfg[m].group in st.star <==> SomeRound(s, clock, n) && DropsAt(cfg, m)))
  {
    hide *;
    DeliveredIs(cfg, link, S.Plan(s, clock, n));
    FarewellDelivered(cfg, s, clock, n);
    StarsAtEnd(cfg, SomeRound(s, clock, n), InversesIn(S.Farewell(s, clock, n)));
  }

  // What the farewell makes of what the ticks left behind.
  lemma FarewellDelivered(cfg: JPConfig, s: S.Config, clock: S.Clock, n: nat)
    requires DistinctGroups(cfg) && Schedules(s, cfg)
    ensures forall k :: 0 <= k < |InversesIn(S.Farewell(s, clock, n))| ==>
              InversesIn(S.Farewell(s, clock, n))[k] < |InversePacked(cfg)|
    ensures forall i: nat :: i < |InversePacked(cfg)| ==> i in InversesIn(S.Farewell(s, clock, n))
    ensures Deliver(NO_STATE, S.Plan(s, clock, n), Packed(cfg), InversePacked(cfg))
         == ReceiveRun(if SomeRound(s, clock, n) then Wanted(cfg) else NO_STATE,
                       InversePacked(cfg), InversesIn(S.Farewell(s, clock, n)))
  {
    hide Packed, InversePacked, Wanted, S.Ticks, SomeRound, Deliver, ReceiveRun, InversesIn;
    var ticks, bye := S.Ticks(s, clock, n), S.Farewell(s, clock, n);
    StateAfterTicks(cfg, s, clock, n);
    DeliverAppend(NO_STATE, ticks, bye, Packed(cfg), InversePacked(cfg));
    DeliverInverses(if SomeRound(s, clock, n) then Wanted(cfg) else NO_STATE, bye, Packed(cfg), InversePacked(cfg));
    forall k: nat | k < |InversePacked(cfg)|
      ensures k in InversesIn(bye)
    {
      assert bye[k] == S.Sending(clock(n + 1), S.InverseUpdate(k));
      UpdateIncluded(bye, bye[k]);
    }
  }

  lemma StarsAtEnd(cfg: JPConfig, joined: bool, run: seq<nat>)
    requires DistinctGroups(cfg)
    requires forall k :: 0 <= k < |run| ==> run[k] < |InversePacked(cfg)|
    requires forall i: nat :: i < |InversePacked(cfg)| ==> i in run
    ensures var t := ReceiveRun(if joined then Wanted(cfg) else NO_STATE, InversePacked(cfg), run);
            && t.joined == {}
            && t.pruned == (if joined then Wanted(cfg).pruned else {})
            && t.star.Keys <= Wanted(cfg).star.Keys
            && (forall m :: 0 <= m < |cfg| ==> (cfg[m].group in t.star <==> joined && DropsAt(cfg, m)))
  {
    hide InversePacked, ReceiveRun, DropsAt;
    Goodbye.Farewell(cfg, if joined then Wanted(cfg) else NO_STATE, run);
    forall m | 0 <= m < |cfg|
      ensures DropsAt(cfg, m) ==> cfg[m].rpt.Some?
      ensures cfg[m].group in Wanted(cfg).star <==> cfg[m].rpt.Some?
    {
      DropsNeedRP(cfg, m);
      assert cfg[m] in cfg;
      WantedPrune(cfg, cfg[m], 0);
    }
  }

  // A configuration that pimc starts with leaves no join behind, (S,G) or (*,G).
  lemma StartedLeavesNothing(raw: seq<RawGroup>, cfg: JPConfig, link: Link, s: S.Config, clock: S.Clock, n: nat)
    requires LoadsAs(raw, cfg) && Startable(raw)
    requires link.holdtime < 0x1_0000 && Schedules(s, cfg)
    ensures Sendable(cfg, link)
    ensures var st := Delivered(cfg, link, S.Plan(s, clock, n)); st.joined == {} && st.star == map[]
  {
    StartableIffBuilds(raw, cfg);
    hide LoadsAs, Startable, Delivered, DropsAt, Overflows, S.Plan, Schedules, GroupLoaded;
    forall g | g in cfg
      ensures PrunesBounded(g)
    {
      LoadedBounded(g);
    }
    StateAfterRun(cfg, link, s, clock, n);
    var st := Delivered(cfg, link, S.Plan(s, clock, n));
    forall a | a in st.star
      ensures false
    {
      var m := WantedStar(cfg, a);
      DropsExactly(cfg, m);
    }
  }

  lemma LoadedBounded(g: GroupConfig)
    requires GroupLoaded(g)
    ensures PrunesBounded(g)
  {
  }

  lemma WantedStar(cfg: JPConfig, a: Address) returns (m: nat)
    requires DistinctGroups(cfg) && a in Wanted(cfg).star
    ensures m < |cfg| && cfg[m].group == a
  {
    var g :| g in cfg && g.group == a;
    m :| m < |cfg| && cfg[m] == g;
  }

  // ---- Runs that fail ----

  // The sends that went out: all that were attempted, but for the one that failed.
  function SentOut(s: S.Config, clock: S.Clock, opens: bool, ok: nat -> bool, n: nat): seq<S.Sending> {
    var sent := S.Sends(s, clock, opens, ok, n);
    if sent != [] && !ok(|sent| - 1) then sent[..|sent| - 1] else sent
  }

  // A run sends out its plan up to the first failure.
  lemma SentOutIsPlan(s: S.Config, clock: S.Clock, opens: bool, ok: nat -> bool, n: nat)
    ensures var out := SentOut(s, clock, opens, ok, n);
            && out <= S.Plan(s, clock, n)
            && S.AllOk(ok, 0, |out|)
            && (out == S.Plan(s, clock, n) <==> opens && S.AllOk(ok, 0, |S.Plan(s, clock, n)|))
  {
    hide S.Plan;
    var plan := S.Plan(s, clock, n);
    S.AttemptsAll(ok, 0, |plan|);
    PlanNotEmpty(s, clock, n);
  }

  lemma PlanNotEmpty(s: S.Config, clock: S.Clock, n: nat)
    ensures S.Plan(s, clock, n) != []
  {
  }

  // Whatever fails and whenever: at every point of a run the neighbor has nothing
  // that is not configured, and it has exactly the configured state from the first
  // complete round until the first inverse update goes out.
  lemma StateOfAnyRun(cfg: JPConfig, link: Link, s: S.Config, clock: S.Clock, opens: bool, ok: nat -> bool,
                      n: nat, p: nat)
    requires Sendable(cfg, link) && Schedules(s, cfg)
    requires p <= |SentOut(s, clock, opens, ok, n)|
    ensures var st := Delivered(cfg, link, SentOut(s, clock, opens, ok, n)[..p]);
            && Within(st, Wanted(cfg))
            && (p <= |S.Ticks(s, clock, n)|
                && (exists i: nat :: i < n && S.RoundFires(s, clock, i) && |S.Ticks(s, clock, i + 1)| <= p) ==>
                  st == Wanted(cfg))
  {
    hide Packed, InversePacked, Wanted, S.Sends, S.Ticks, SentOut, Delivered, Deliver, Within;
    var ticks, bye := S.Ticks(s, clock, n), S.Farewell(s, clock, n);
    var us, inverse := Packed(cfg), InversePacked(cfg);
    DeliveredIs(cfg, link, SentOut(s, clock, opens, ok, n)[..p]);
    var out := SentOut(s, clock, opens, ok, n);
    SentOutIsPlan(s, clock, opens, ok, n);
    assert out[..p] == S.Plan(s, clock, n)[..p];
    if p <= |ticks| {
      assert out[..p] == ticks[..p];
      StateDuringRun(cfg, link, s, clock, n, p);
    } else {
      var part := bye[..p - |ticks|];
      assert out[..p] == ticks + part;
      StateAfterTicks(cfg, s, clock, n);
      NoStateWithin(cfg);
      DeliverAppend(NO_STATE, ticks, part, us, inverse);
      FarewellWithin(cfg, s, clock, n, if SomeRound(s, clock, n) then Wanted(cfg) else NO_STATE, p - |ticks|);
    }
  }

  // The farewell, or part of it, takes nothing but joins away.
  lemma FarewellWithin(cfg: JPConfig, s: S.Config, clock: S.Clock, n: nat, st: State, p: nat)
    requires DistinctGroups(cfg) && Schedules(s, cfg)
    requires st.tmp == {} && Within(st, Wanted(cfg)) && p <= |S.Farewell(s, clock, n)|
    ensures Within(Deliver(st, S.Farewell(s, clock, n)[..p], Packed(cfg), InversePacked(cfg)), Wanted(cfg))
  {
    hide Packed, InversePacked, Wanted;
    var part, inverse := S.Farewell(s, clock, n)[..p], InversePacked(cfg);
    forall x | x in part
      ensures x.packet.Goodbye? || (x.packet.InverseUpdate? && x.packet.k < |inverse|)
    {
      assert x in S.Farewell(s, clock, n);
    }
    DeliverInverses(st, part, Packed(cfg), inverse);
    Goodbye.InverseOnlyPrunes(cfg);
    Goodbye.RunGone(st, inverse, InversesIn(part));
    Goodbye.GoneWithin(st, ReceiveRun(st, inverse, InversesIn(part)), RunEntries(inverse, InversesIn(part)));
    WithinTwice(ReceiveRun(st, inverse, InversesIn(part)), st, Wanted(cfg));
  }

  lemma WithinTwice(a: State, b: State, c: State)
    requires Within(a, b) && Within(b, c)
    ensures Within(a, c)
  {
  }
}
