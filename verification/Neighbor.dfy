// The upstream neighbor that the Join/Prune updates are sent to.  It handles
// each update as one message, by sections 4.5.1 to 4.5.3 of RFC 7761: a
// Join(*,G) makes the (S,G,rpt) prunes of its group temporary, a prune in the
// same message restores them, and the end of the message drops what is left.
// State timers are not modelled, nor a prune-pending delay.
module Neighbor {
  import opened JoinPrune
  import opened FirstFit
  import opened Conservation

  datatype SG = SG(group: Address, source: Address)

  datatype State = State(
    star: map<Address, Address>,  // (*,G) joins, with their RP
    joined: set<SG>,              // (S,G) joins
    pruned: set<SG>,              // (S,G,rpt) prunes
    tmp: set<SG>)                 // (S,G,rpt) prunes that are temporary in this message

  const NO_STATE := State(map[], {}, {}, {})

  // ---- Handling of a message ----

  function OnJoin(st: State, a: Address, s: Source): State {
    var sg := SG(a, s.addr);
    if s.wildcard && s.rpt then
      var ofGroup := set x | x in st.pruned && x.group == a;
      st.(star := st.star[a := s.addr], pruned := st.pruned - ofGroup, tmp := st.tmp + ofGroup)
    else if !s.wildcard && !s.rpt then st.(joined := st.joined + {sg})
    else if !s.wildcard && s.rpt then st.(pruned := st.pruned - {sg}, tmp := st.tmp - {sg})
    else st
  }

  function OnPrune(st: State, a: Address, s: Source): State {
    var sg := SG(a, s.addr);
    if s.wildcard && s.rpt then st.(star := st.star - {a})
    else if !s.wildcard && !s.rpt then st.(joined := st.joined - {sg})
    else if !s.wildcard && s.rpt then st.(pruned := st.pruned + {sg}, tmp := st.tmp - {sg})
    else st
  }

  function OnJoins(st: State, a: Address, ss: seq<Source>): State {
    if ss == [] then st else OnJoin(OnJoins(st, a, ss[..|ss| - 1]), a, ss[|ss| - 1])
  }

  function OnPrunes(st: State, a: Address, ss: seq<Source>): State {
    if ss == [] then st else OnPrune(OnPrunes(st, a, ss[..|ss| - 1]), a, ss[|ss| - 1])
  }

  function OnEntry(st: State, e: GroupEntry): State {
    OnPrunes(OnJoins(st, e.group, e.joins), e.group, e.prunes)
  }

  function OnEntries(st: State, u: Update): State {
    if u == [] then st else OnEntry(OnEntries(st, u[..|u| - 1]), u[|u| - 1])
  }

  function EndOfMessage(st: State): State {
    st.(tmp := {})
  }

  function Receive(st: State, u: Update): State {
    EndOfMessage(OnEntries(st, u))
  }

  // The messages of us that a run of indices selects, received one by one: any
  // of them may be lost, repeated or reordered.
  function ReceiveRun(st: State, us: seq<Update>, run: seq<nat>): State
    requires forall k :: 0 <= k < |run| ==> run[k] < |us|
  {
    if run == [] then st
    else Receive(ReceiveRun(st, us, run[..|run| - 1]), us[run[|run| - 1]])
  }

  // ---- The configured state ----

  function Pairs(a: Address, ss: seq<Address>): set<SG> {
    set s | s in ss :: SG(a, s)
  }

  // The state that a configuration asks of the neighbor.
  ghost function Wanted(cfg: JPConfig): State
    requires DistinctGroups(cfg)
  {
    State(
      map g | g in cfg && g.rpt.Some? :: g.group := g.rpt.value.rp,
      set g, s | g in cfg && s in g.spt :: SG(g.group, s),
      set g, s | g in cfg && g.rpt.Some? && s in g.rpt.value.prunes :: SG(g.group, s),
      {})
  }

  // The configured state, group by group.
  lemma WantedIs(cfg: JPConfig, a: Address)
    requires DistinctGroups(cfg)
    ensures forall g :: g in cfg && g.group == a ==>
              && (forall s :: SG(a, s) in Wanted(cfg).joined <==> s in g.spt)
              && (forall s :: SG(a, s) in Wanted(cfg).pruned <==> g.rpt.Some? && s in g.rpt.value.prunes)
              && (a in Wanted(cfg).star <==> g.rpt.Some?)
              && (g.rpt.Some? ==> Wanted(cfg).star[a] == g.rpt.value.rp)
    ensures (forall g :: g in cfg ==> g.group != a) ==>
              && a !in Wanted(cfg).star
              && forall s :: SG(a, s) !in Wanted(cfg).joined && SG(a, s) !in Wanted(cfg).pruned
  {
  }

  // st has nothing that t has not.
  ghost predicate Within(st: State, t: State) {
    && (forall a :: a in st.star ==> a in t.star && st.star[a] == t.star[a])
    && st.joined <= t.joined && st.pruned <= t.pruned && st.tmp <= t.tmp
  }

  lemma WithinBoth(st: State, t: State)
    requires Within(st, t) && Within(t, st)
    ensures st == t
  {
    assert st.star.Keys == t.star.Keys;
  }

  // ---- The effect of chunks ----

  lemma {:induction false} SptSourcesEffect(st: State, a: Address, srcs: seq<Address>)
    ensures OnJoins(st, a, SptSources(srcs)) == st.(joined := st.joined + Pairs(a, srcs))
  {
    if srcs != [] {
      var n := |srcs| - 1;
      SptSourcesEffect(st, a, srcs[..n]);
      assert SptSources(srcs)[..n] == SptSources(srcs[..n]);
      assert srcs == srcs[..n] + [srcs[n]];
      assert Pairs(a, srcs) == Pairs(a, srcs[..n]) + {SG(a, srcs[n])};
    } else {
      assert Pairs(a, srcs) == {};
    }
  }

  lemma {:induction false} RptPrunesEffect(st: State, a: Address, srcs: seq<Address>)
    ensures OnPrunes(st, a, RptPrunes(srcs))
         == st.(pruned := st.pruned + Pairs(a, srcs), tmp := st.tmp - Pairs(a, srcs))
  {
    if srcs != [] {
      var n := |srcs| - 1;
      RptPrunesEffect(st, a, srcs[..n]);
      assert RptPrunes(srcs)[..n] == RptPrunes(srcs[..n]);
      assert srcs == srcs[..n] + [srcs[n]];
      assert Pairs(a, srcs) == Pairs(a, srcs[..n]) + {SG(a, srcs[n])};
    } else {
      assert Pairs(a, srcs) == {};
    }
  }

  // The (*,G) and (S,G,rpt) state of group a is the same in both.
  ghost predicate SameGroup(st: State, t: State, a: Address) {
    && (a in st.star <==> a in t.star)
    && (a in st.star ==> st.star[a] == t.star[a])
    && (forall s :: SG(a, s) in st.pruned <==> SG(a, s) in t.pruned)
  }

  // The (*,G) and (S,G,rpt) state of the group is exactly the configured one.
  ghost predicate AsConfigured(t: State, g: GroupConfig) {
    && g.rpt.Some?
    && g.group in t.star && t.star[g.group] == g.rpt.value.rp
    && (forall s :: SG(g.group, s) in t.pruned <==> s in g.rpt.value.prunes)
  }

  // An RPT block, whatever the neighbor had before: its Join(*,G) makes the group's
  // prunes temporary, and its prunes are the only ones that are left.
  lemma BlockEffect(st: State, a: Address, srcs: seq<Address>, rp: Address, prunes: seq<Address>)
    ensures var t := OnPrunes(OnJoins(st, a, SptSources(srcs) + [Source(rp, true, true)]), a, RptPrunes(prunes));
            && t.joined == st.joined + Pairs(a, srcs)
            && t.star == st.star[a := rp]
            && (forall x :: x in t.pruned <==> if x.group == a then x.source in prunes else x in st.pruned)
            && (forall x :: x in t.tmp <==>
                  (x in st.tmp || (x in st.pruned && x.group == a)) && !(x.group == a && x.source in prunes))
  {
    hide SptSources, RptPrunes;
    SptSourcesEffect(st, a, srcs);
    var ss := SptSources(srcs) + [Source(rp, true, true)];
    assert ss[..|ss| - 1] == SptSources(srcs);
    RptPrunesEffect(OnJoins(st, a, ss), a, prunes);
    assert forall x :: x in Pairs(a, prunes) <==> x.group == a && x.source in prunes;
  }

  lemma ChunkParts(e: GroupEntry, g: GroupConfig)
    requires IsChunk(e, g)
    ensures e.group == g.group
    ensures Addresses(e.joins, true) == RpOf(g, HasBlock(e))
    ensures Addresses(e.prunes, false) == RptPrunesOf(g, HasBlock(e))
  {
    ChunkViews(g, Addresses(e.joins, false), HasBlock(e));
    ListedOne(e, false, true);
    ListedOne(e, true, false);
  }

  // What handling a chunk comes to.
  lemma ChunkHandled(st: State, e: GroupEntry, g: GroupConfig)
    requires IsChunk(e, g)
    ensures var joins := SptSources(Addresses(e.joins, false));
            && (HasBlock(e) ==>
                  && g.rpt.Some?
                  && OnEntry(st, e) == OnPrunes(OnJoins(st, g.group, joins + [Source(g.rpt.value.rp, true, true)]),
                                                g.group, RptPrunes(g.rpt.value.prunes)))
            && (!HasBlock(e) ==> OnEntry(st, e) == OnJoins(st, g.group, joins))
  {
  }

  lemma ChunkEffect(st: State, e: GroupEntry, g: GroupConfig)
    requires IsChunk(e, g)
    ensures var t := OnEntry(st, e);
            && t.joined == st.joined + Pairs(e.group, Addresses(e.joins, false))
            && (HasBlock(e) ==> AsConfigured(t, g))
            && (forall a :: a != e.group || !HasBlock(e) ==> SameGroup(st, t, a))
  {
    ChunkHandled(st, e, g);
    ChunkParts(e, g);
    hide *;
    var srcs, t := Addresses(e.joins, false), OnEntry(st, e);
    if HasBlock(e) {
      BlockEffect(st, g.group, srcs, g.rpt.value.rp, g.rpt.value.prunes);
      BlockOnly(st, t, g);
    } else {
      SptSourcesEffect(st, g.group, srcs);
      SameGroups(st, t);
    }
  }

  lemma BlockOnly(st: State, t: State, g: GroupConfig)
    requires g.rpt.Some? && t.star == st.star[g.group := g.rpt.value.rp]
    requires forall x ::
               x in t.pruned <==> if x.group == g.group then x.source in g.rpt.value.prunes else x in st.pruned
    ensures AsConfigured(t, g) && forall a :: a != g.group ==> SameGroup(st, t, a)
  {
  }

  lemma SameGroups(st: State, t: State)
    requires t.star == st.star && t.pruned == st.pruned
    ensures forall a :: SameGroup(st, t, a)
  {
  }

  ghost function EntrySet(u: Update): set<GroupEntry> {
    set e | e in u
  }

  ghost predicate JoinedBy(es: set<GroupEntry>, x: SG) {
    exists e :: e in es && e.group == x.group && x.source in Addresses(e.joins, false)
  }

  ghost predicate BlockBy(es: set<GroupEntry>, a: Address) {
    exists e :: e in es && e.group == a && HasBlock(e)
  }

  ghost predicate Configured(cfg: JPConfig, t: State, a: Address) {
    exists g :: g in cfg && g.group == a && AsConfigured(t, g)
  }

  // t is st after chunks es of the configuration: their sources are joined, the
  // groups whose block is among them are exactly as configured, the others as before.
  ghost predicate Updated(cfg: JPConfig, st: State, t: State, es: set<GroupEntry>) {
    && (forall x :: x in t.joined <==> x in st.joined || JoinedBy(es, x))
    && (forall a :: if BlockBy(es, a) then Configured(cfg, t, a) else SameGroup(st, t, a))
  }

  lemma UpdatedOne(cfg: JPConfig, st: State, e: GroupEntry, g: GroupConfig)
    requires g in cfg && IsChunk(e, g)
    ensures Updated(cfg, st, OnEntry(st, e), {e})
  {
    ChunkEffect(st, e, g);
    ChunkParts(e, g);
    hide IsChunk, OnEntry, HasBlock, AsConfigured, SameGroup, Addresses;
    assert e in {e};
  }

  lemma UpdatedTwice(cfg: JPConfig, st: State, t: State, t': State, es: set<GroupEntry>, fs: set<GroupEntry>)
    requires Updated(cfg, st, t, es) && Updated(cfg, t, t', fs)
    ensures Updated(cfg, st, t', es + fs)
  {
    hide HasBlock, Addresses;
    forall x: SG
      ensures JoinedBy(es + fs, x) <==> JoinedBy(es, x) || JoinedBy(fs, x)
    {
    }
    forall a: Address
      ensures BlockBy(es + fs, a) <==> BlockBy(es, a) || BlockBy(fs, a)
    {
    }
    hide JoinedBy, BlockBy;
    forall a: Address | BlockBy(es, a) && !BlockBy(fs, a)
      ensures Configured(cfg, t', a)
    {
      var g :| g in cfg && g.group == a && AsConfigured(t, g);
      assert SameGroup(t, t', a);
      assert AsConfigured(t', g);
    }
  }

  lemma UpdatedNone(cfg: JPConfig, st: State)
    ensures Updated(cfg, st, st, {})
  {
  }

  lemma {:induction false} EntriesUpdated(st: State, u: Update, cfg: JPConfig)
    requires Chunks(u, cfg)
    ensures Updated(cfg, st, OnEntries(st, u), EntrySet(u))
  {
    hide IsChunk, OnEntry, Updated;
    if u != [] {
      var v, e := u[..|u| - 1], u[|u| - 1];
      assert u == v + [e];
      assert forall x :: x in v ==> x in u;
      EntriesUpdated(st, v, cfg);
      assert e in u;
      var g :| g in cfg && IsChunk(e, g);
      UpdatedOne(cfg, OnEntries(st, v), e, g);
      UpdatedTwice(cfg, st, OnEntries(st, v), OnEntries(st, u), EntrySet(v), {e});
      assert EntrySet(u) == EntrySet(v) + {e};
    } else {
      UpdatedNone(cfg, st);
      assert EntrySet(u) == {};
    }
  }

  lemma MessageUpdated(st: State, u: Update, cfg: JPConfig)
    requires Chunks(u, cfg)
    ensures Updated(cfg, st, Receive(st, u), EntrySet(u)) && Receive(st, u).tmp == {}
  {
    EntriesUpdated(st, u, cfg);
    UpdatedEnd(cfg, st, OnEntries(st, u), EntrySet(u));
  }

  lemma UpdatedEnd(cfg: JPConfig, st: State, t: State, es: set<GroupEntry>)
    requires Updated(cfg, st, t, es)
    ensures Updated(cfg, st, EndOfMessage(t), es)
  {
    var t' := EndOfMessage(t);
    hide JoinedBy, BlockBy;
    forall a: Address | BlockBy(es, a)
      ensures Configured(cfg, t', a)
    {
      var g :| g in cfg && g.group == a && AsConfigured(t, g);
      assert AsConfigured(t', g);
    }
    assert forall a :: SameGroup(st, t, a) ==> SameGroup(st, t', a);
  }

  ghost function RunEntries(us: seq<Update>, run: seq<nat>): set<GroupEntry>
    requires forall k :: 0 <= k < |run| ==> run[k] < |us|
  {
    set k, e | 0 <= k < |run| && e in us[run[k]] :: e
  }

  lemma {:induction false} RunUpdated(st: State, us: seq<Update>, run: seq<nat>, cfg: JPConfig)
    requires forall k :: 0 <= k < |run| ==> run[k] < |us|
    requires forall u :: u in us ==> Chunks(u, cfg)
    ensures var t := ReceiveRun(st, us, run);
            Updated(cfg, st, t, RunEntries(us, run)) && (run != [] || st.tmp == {} ==> t.tmp == {})
  {
    hide Updated, Receive, Chunks;
    if run != [] {
      var r, i := run[..|run| - 1], run[|run| - 1];
      var t := ReceiveRun(st, us, r);
      RunUpdated(st, us, r, cfg);
      MessageUpdated(t, us[i], cfg);
      UpdatedTwice(cfg, st, t, Receive(t, us[i]), RunEntries(us, r), EntrySet(us[i]));
      assert RunEntries(us, run) == RunEntries(us, r) + EntrySet(us[i]);
    } else {
      UpdatedNone(cfg, st);
      assert RunEntries(us, run) == {};
    }
  }

  // A run that selects every message selects every entry.
  lemma RunHasAll(us: seq<Update>, run: seq<nat>)
    requires forall k :: 0 <= k < |run| ==> run[k] < |us|
    requires forall i: nat :: i < |us| ==> i in run
    ensures forall e :: e in RunEntries(us, run) <==> exists u :: u in us && e in u
  {
    forall u, e | u in us && e in u
      ensures e in RunEntries(us, run)
    {
      var i: nat :| i < |us| && us[i] == u;
      assert i in run;
    }
  }

  // ---- From a state within the configured one ----

  // The state shows what the entry asks for.
  ghost predicate Shows(st: State, e: GroupEntry) {
    && Pairs(e.group, Addresses(e.joins, false)) <= st.joined
    && Pairs(e.group, Addresses(e.prunes, false)) <= st.pruned
    && forall rp :: rp in Addresses(e.joins, true) ==> e.group in st.star && st.star[e.group] == rp
  }

  ghost predicate ChunkSet(es: set<GroupEntry>, cfg: JPConfig) {
    forall e :: e in es ==> exists g :: g in cfg && IsChunk(e, g)
  }

  lemma ConfiguredGroup(cfg: JPConfig, t: State, g: GroupConfig)
    requires DistinctGroups(cfg) && g in cfg && Configured(cfg, t, g.group)
    ensures AsConfigured(t, g)
  {
  }

  lemma ConfiguredShows(t: State, e: GroupEntry, g: GroupConfig)
    requires IsChunk(e, g) && HasBlock(e) && AsConfigured(t, g)
    ensures Pairs(e.group, Addresses(e.prunes, false)) <= t.pruned
    ensures forall rp :: rp in Addresses(e.joins, true) ==> e.group in t.star && t.star[e.group] == rp
  {
    ChunkParts(e, g);
    hide IsChunk, Addresses;
  }

  lemma UpdatedShows(cfg: JPConfig, st: State, t: State, es: set<GroupEntry>, e: GroupEntry)
    requires DistinctGroups(cfg) && Updated(cfg, st, t, es) && ChunkSet(es, cfg) && e in es
    ensures Shows(t, e)
  {
    var g :| g in cfg && IsChunk(e, g);
    ChunkParts(e, g);
    hide IsChunk, Addresses, Configured, AsConfigured, SameGroup, HasBlock, ChunkSet;
    forall x | x in Pairs(e.group, Addresses(e.joins, false))
      ensures x in t.joined
    {
      assert JoinedBy(es, x);
    }
    if HasBlock(e) {
      assert BlockBy(es, e.group);
      ConfiguredGroup(cfg, t, g);
      ConfiguredShows(t, e, g);
    }
  }

  lemma JoinedIsWanted(cfg: JPConfig, es: set<GroupEntry>, x: SG)
    requires DistinctGroups(cfg) && ChunkSet(es, cfg) && JoinedBy(es, x)
    ensures x in Wanted(cfg).joined
  {
    var e :| e in es && e.group == x.group && x.source in Addresses(e.joins, false);
    var g :| g in cfg && IsChunk(e, g);
    ChunkParts(e, g);
  }

  // A state within the configured one only grows towards it.
  lemma UpdatedWithin(cfg: JPConfig, st: State, t: State, es: set<GroupEntry>)
    requires DistinctGroups(cfg) && Updated(cfg, st, t, es) && ChunkSet(es, cfg)
    requires Within(st, Wanted(cfg)) && t.tmp == {}
    ensures Within(st, t) && Within(t, Wanted(cfg))
  {
    var w := Wanted(cfg);
    forall x | x in t.joined
      ensures x in w.joined
    {
      if JoinedBy(es, x) {
        JoinedIsWanted(cfg, es, x);
      }
    }
    assert st.joined <= t.joined && st.tmp == t.tmp == w.tmp;
    hide Wanted, Updated, ChunkSet;
    forall a: Address
      ensures a in t.star ==> a in w.star && t.star[a] == w.star[a]
      ensures a in st.star ==> a in t.star && t.star[a] == st.star[a]
    {
      WithinAt(cfg, st, t, es, a);
    }
    forall x: SG
      ensures x in t.pruned ==> x in w.pruned
      ensures x in st.pruned ==> x in t.pruned
    {
      WithinAt(cfg, st, t, es, x.group);
      assert x == SG(x.group, x.source);
    }
  }

  lemma WantedPrune(cfg: JPConfig, g: GroupConfig, s: Address)
    requires DistinctGroups(cfg) && g in cfg
    ensures SG(g.group, s) in Wanted(cfg).pruned <==> g.rpt.Some? && s in g.rpt.value.prunes
    ensures g.group in Wanted(cfg).star <==> g.rpt.Some?
    ensures g.rpt.Some? ==> Wanted(cfg).star[g.group] == g.rpt.value.rp
  {
  }

  lemma WithinAt(cfg: JPConfig, st: State, t: State, es: set<GroupEntry>, a: Address)
    requires DistinctGroups(cfg) && Updated(cfg, st, t, es)
    requires Within(st, Wanted(cfg))
    ensures var w := Wanted(cfg);
            && (a in t.star ==> a in w.star && t.star[a] == w.star[a])
            && (a in st.star ==> a in t.star && t.star[a] == st.star[a])
            && (forall s :: SG(a, s) in t.pruned ==> SG(a, s) in w.pruned)
            && (forall s :: SG(a, s) in st.pruned ==> SG(a, s) in t.pruned)
  {
    hide Wanted;
    if BlockBy(es, a) {
      var g :| g in cfg && g.group == a && AsConfigured(t, g);
      forall s: Address
        ensures SG(a, s) in Wanted(cfg).pruned <==> s in g.rpt.value.prunes
      {
        WantedPrune(cfg, g, s);
      }
      WantedPrune(cfg, g, 0);
    } else {
      assert SameGroup(st, t, a);
    }
  }

  lemma ChunkSetOf(u: Update, cfg: JPConfig)
    requires Chunks(u, cfg)
    ensures ChunkSet(EntrySet(u), cfg)
  {
  }

  lemma MessageEffect(st: State, u: Update, cfg: JPConfig)
    requires DistinctGroups(cfg) && Chunks(u, cfg) && Within(st, Wanted(cfg))
    ensures var t := Receive(st, u);
            Within(st, t) && Within(t, Wanted(cfg)) && (forall e :: e in u ==> Shows(t, e))
  {
    hide Updated, Receive, Wanted, Shows, ChunkSet, Chunks;
    var t := Receive(st, u);
    MessageUpdated(st, u, cfg);
    ChunkSetOf(u, cfg);
    UpdatedWithin(cfg, st, t, EntrySet(u));
    forall e | e in u
      ensures Shows(t, e)
    {
      UpdatedShows(cfg, st, t, EntrySet(u), e);
    }
  }

  // ---- Packed updates ----

  lemma RunChunkSet(us: seq<Update>, run: seq<nat>, cfg: JPConfig)
    requires forall k :: 0 <= k < |run| ==> run[k] < |us|
    requires forall u :: u in us ==> Chunks(u, cfg)
    ensures ChunkSet(RunEntries(us, run), cfg)
  {
    hide IsChunk;
    forall e | e in RunEntries(us, run)
      ensures exists g :: g in cfg && IsChunk(e, g)
    {
      var k :| 0 <= k < |run| && e in us[run[k]];
      assert us[run[k]] in us;
    }
  }

  // An address that is listed for a group is listed by one of its entries.
  lemma {:induction false} JoinListed(es: seq<GroupEntry>, x: Address, w: bool) returns (e: GroupEntry)
    requires x in Listed(es, false, w)
    ensures e in es && x in Addresses(e.joins, w)
  {
    if x in Addresses(es[0].joins, w) {
      e := es[0];
    } else {
      e := JoinListed(es[1..], x, w);
    }
  }

  // All packed entries together join every configured source, and have every block.
  lemma AllPacked(cfg: JPConfig, es: set<GroupEntry>, g: GroupConfig)
    requires DistinctGroups(cfg) && g in cfg
    requires forall e :: e in es <==> exists u :: u in Packed(cfg) && e in u
    ensures forall s :: s in g.spt ==> JoinedBy(es, SG(g.group, s))
    ensures g.rpt.Some? ==> BlockBy(es, g.group)
  {
    PackedCarries(cfg);
    hide Packed, IsChunk, Listed, EntriesOf, Addresses;
    var mine := EntriesOf(g.group, Packed(cfg));
    forall s | s in g.spt
      ensures JoinedBy(es, SG(g.group, s))
    {
      assert s in JoinedSources(mine);
      var e := JoinListed(mine, s, false);
      EntriesOfMember(g.group, Packed(cfg), e);
    }
    if g.rpt.Some? {
      assert g.rpt.value.rp in JoinedRPs(mine);
      var e := JoinListed(mine, g.rpt.value.rp, true);
      EntriesOfMember(g.group, Packed(cfg), e);
      assert HasBlock(e);
    }
  }

  lemma NoOtherBlock(cfg: JPConfig, es: set<GroupEntry>, a: Address)
    requires ChunkSet(es, cfg) && BlockBy(es, a)
    ensures exists g :: g in cfg && g.group == a && g.rpt.Some?
  {
    var e :| e in es && e.group == a && HasBlock(e);
    var g :| g in cfg && IsChunk(e, g);
  }

  // Repair.  Whatever state the neighbor was in, once every packed update has been
  // received, in any order and any number of times, each group with an RPT has
  // exactly the configured RP and prunes, stale prunes being gone; every configured
  // source is joined; and nothing else has changed.
  lemma NeighborRepaired(cfg: JPConfig, st: State, run: seq<nat>)
    requires DistinctGroups(cfg)
    requires forall k :: 0 <= k < |run| ==> run[k] < |Packed(cfg)|
    requires forall i: nat :: i < |Packed(cfg)| ==> i in run
    ensures var t := ReceiveRun(st, Packed(cfg), run);
            && t.joined == st.joined + Wanted(cfg).joined
            && (forall g :: g in cfg && g.rpt.Some? ==> AsConfigured(t, g))
            && (forall a :: a !in Wanted(cfg).star ==> SameGroup(st, t, a))
            && (run != [] || st.tmp == {} ==> t.tmp == {})
  {
    var us := Packed(cfg);
    var t, es := ReceiveRun(st, us, run), RunEntries(us, run);
    PackedChunks(cfg);
    RunUpdated(st, us, run, cfg);
    RunChunkSet(us, run, cfg);
    RunHasAll(us, run);
    hide Packed, ReceiveRun, RunEntries, Chunks, AsConfigured, SameGroup, ChunkSet, JoinedBy, BlockBy;
    forall g | g in cfg
      ensures forall s :: s in g.spt ==> SG(g.group, s) in t.joined
      ensures g.rpt.Some? ==> AsConfigured(t, g)
    {
      AllPacked(cfg, es, g);
      if g.rpt.Some? {
        ConfiguredGroup(cfg, t, g);
      }
    }
    forall x | x in t.joined
      ensures x in st.joined || x in Wanted(cfg).joined
    {
      if JoinedBy(es, x) {
        JoinedIsWanted(cfg, es, x);
      }
    }
    forall a | a !in Wanted(cfg).star
      ensures SameGroup(st, t, a)
    {
      if BlockBy(es, a) {
        NoOtherBlock(cfg, es, a);
        assert false;
      }
    }
  }

  // Soft state.  Whatever messages of the packed updates the neighbor receives,
  // lost, repeated or reordered, its state only grows towards the configured one
  // and is exactly that once every update has been received at least once, and
  // after every single message from then on.
  lemma NeighborFollows(cfg: JPConfig, st: State, run: seq<nat>)
    requires DistinctGroups(cfg) && Within(st, Wanted(cfg))
    requires forall k :: 0 <= k < |run| ==> run[k] < |Packed(cfg)|
    ensures var t := ReceiveRun(st, Packed(cfg), run);
            && Within(st, t) && Within(t, Wanted(cfg))
            && ((forall i: nat :: i < |Packed(cfg)| ==> i in run) ==> t == Wanted(cfg))
  {
    var us := Packed(cfg);
    var t, es := ReceiveRun(st, us, run), RunEntries(us, run);
    PackedChunks(cfg);
    RunUpdated(st, us, run, cfg);
    RunChunkSet(us, run, cfg);
    hide Packed, ReceiveRun, RunEntries, Chunks, ChunkSet, Updated;
    UpdatedWithin(cfg, st, t, es);
    if forall i: nat :: i < |us| ==> i in run {
      NeighborRepaired(cfg, st, run);
      RepairedIsWanted(cfg, t);
      WithinBoth(t, Wanted(cfg));
    }
  }

  lemma RepairedIsWanted(cfg: JPConfig, t: State)
    requires DistinctGroups(cfg) && Wanted(cfg).joined <= t.joined
    requires forall g :: g in cfg && g.rpt.Some? ==> AsConfigured(t, g)
    ensures Within(Wanted(cfg), t)
  {
  }

  // ---- Why the RPT block must not be split ----

  // A message that joins (*,G) without one of the group's (S,G,rpt) prunes makes
  // the neighbor forget that prune, whatever it had before.
  lemma LoneJoinForgets(st: State, u: Update, a: Address, rp: Address, s: Address)
    requires exists e :: e in u && e.group == a && Source(rp, true, true) in e.joins
    requires forall e :: e in u && e.group == a ==> Source(s, false, true) !in e.prunes
    ensures SG(a, s) !in Receive(st, u).pruned
  {
    LoneJoinEntries(st, u, a, rp, s);
  }

  lemma {:induction false} LoneJoinEntries(st: State, u: Update, a: Address, rp: Address, s: Address)
    requires forall e :: e in u && e.group == a ==> Source(s, false, true) !in e.prunes
    ensures SG(a, s) in OnEntries(st, u).pruned ==>
              && SG(a, s) in st.pruned
              && forall e :: e in u && e.group == a ==> Source(rp, true, true) !in e.joins
  {
    if u != [] {
      var v, e := u[..|u| - 1], u[|u| - 1];
      LoneJoinEntries(st, v, a, rp, s);
      JoinsForget(OnEntries(st, v), e.group, e.joins, a, rp, s);
      PrunesForget(OnJoins(OnEntries(st, v), e.group, e.joins), e.group, e.prunes, a, s);
      assert u == v + [e];
    }
  }

  lemma {:induction false} JoinsForget(st: State, g: Address, ss: seq<Source>, a: Address, rp: Address, s: Address)
    ensures SG(a, s) in OnJoins(st, g, ss).pruned ==>
              SG(a, s) in st.pruned && (g == a ==> Source(rp, true, true) !in ss)
  {
    if ss != [] {
      JoinsForget(st, g, ss[..|ss| - 1], a, rp, s);
      assert ss == ss[..|ss| - 1] + [ss[|ss| - 1]];
    }
  }

  lemma {:induction false} PrunesForget(st: State, g: Address, ss: seq<Source>, a: Address, s: Address)
    requires g == a ==> Source(s, false, true) !in ss
    ensures SG(a, s) in OnPrunes(st, g, ss).pruned ==> SG(a, s) in st.pruned
  {
    if ss != [] {
      PrunesForget(st, g, ss[..|ss| - 1], a, s);
      assert ss == ss[..|ss| - 1] + [ss[|ss| - 1]];
    }
  }
}
