// Where the packers place the entries of a group, told of the updates before and after:
// first fit, as full as can be, and in the order of the configuration.
module Placement {
  import opened JoinPrune
  import opened FirstFit
  import opened PackTheorems
  import opened Conservation
  import opened InverseFit
  import opened InverseTheorems

  // ---- One group ----

  // Update i is as it was, or has one more entry, of group a.
  ghost predicate ExtendedAt(q: seq<Update>, q': seq<Update>, a: Address, i: nat)
    requires i < |q'|
  {
    q'[i] == At(q, i) || GainsAt(q, q', a, i)
  }

  ghost predicate GainsAt(q: seq<Update>, q': seq<Update>, a: Address, i: nat)
    requires i < |q'|
  {
    exists e: GroupEntry :: e.group == a && q'[i] == At(q, i) + [e]
  }

  ghost predicate Extended(q: seq<Update>, q': seq<Update>, a: Address) {
    |q| <= |q'| && forall i :: 0 <= i < |q'| ==> ExtendedAt(q, q', a, i)
  }

  // The entry that an update has gained.
  function Gained(q: seq<Update>, q': seq<Update>, i: nat): GroupEntry
    requires i < |q'| && q'[i] != []
  {
    q'[i][|q'[i]| - 1]
  }

  // Update i has gained an entry with sources of the group.
  ghost predicate GainsSources(q: seq<Update>, q': seq<Update>, i: nat)
    requires i < |q'|
  {
    q'[i] != At(q, i) && q'[i] != [] && Addresses(Gained(q, q', i).joins, false) != []
  }

  // No source more fits in update i, with a group header or, if it has gained an entry,
  // without.
  ghost predicate Filled(q: seq<Update>, q': seq<Update>, i: nat)
    requires i < |q'|
  {
    1466 - Used(q'[i]) < if q'[i] == At(q, i) then 20 else 8
  }

  ghost predicate GainsBlock(q: seq<Update>, q': seq<Update>, i: nat)
    requires i < |q'|
  {
    q'[i] != At(q, i) && q'[i] != [] && HasBlock(Gained(q, q', i))
  }

  // The placement of a group from position k on.
  ghost predicate Placed(q: seq<Update>, q': seq<Update>, k: nat, g: GroupConfig, home: int) {
    && |q| <= |q'|
    && (forall i :: 0 <= i < |q'| && i < k ==> q'[i] == At(q, i))
    && (forall i :: k <= i < |q'| ==> ExtendedAt(q, q', g.group, i))
    && (home >= k ==> home < |q'| && GainsBlock(q, q', home))
    && (forall i, j :: k <= i < j < |q'| && GainsSources(q, q', j) ==> Filled(q, q', i))
  }

  ghost predicate NoSources(q: seq<Update>, q': seq<Update>, k: nat) {
    forall j :: k <= j < |q'| ==> !GainsSources(q, q', j)
  }

  lemma PutGains(q: seq<Update>, k: nat, e: GroupEntry)
    requires k <= |q|
    ensures k < |Put(q, k, e)| && Put(q, k, e)[k] == At(q, k) + [e]
    ensures Put(q, k, e)[k] != At(q, k) && Gained(q, Put(q, k, e), k) == e
    ensures forall i :: 0 <= i < |Put(q, k, e)| && i != k ==> Put(q, k, e)[i] == At(q, i)
  {
    PutAt(q, k, e);
    assert At(Put(q, k, e), k) == Put(q, k, e)[k];
    assert forall i :: 0 <= i < |Put(q, k, e)| ==> Put(q, k, e)[i] == At(Put(q, k, e), i);
  }

  lemma GainsPut(q: seq<Update>, k: nat, e: GroupEntry)
    requires k <= |q|
    ensures k < |Put(q, k, e)| && ExtendedAt(q, Put(q, k, e), e.group, k)
    ensures GainsBlock(q, Put(q, k, e), k) <==> HasBlock(e)
    ensures GainsSources(q, Put(q, k, e), k) <==> Addresses(e.joins, false) != []
  {
    PutGains(q, k, e);
    hide Put, HasBlock, Addresses;
  }

  // One step of the scan.
  lemma StepPlaces(q: seq<Update>, k: nat, g: GroupConfig, srci: nat, home: int, n: nat, q': seq<Update>)
    requires k <= |q| && srci <= |g.spt| && PrunesBounded(g) && RoomAtHome(q, k, g, home) && AllFit(q)
    requires Step(q, k, g, srci, home, n, q')
    ensures srci + n <= |g.spt| && k < |q'| && |q| <= |q'|
    ensures forall i :: 0 <= i < |q'| && i != k ==> q'[i] == At(q, i)
    ensures ExtendedAt(q, q', g.group, k)
    ensures home == k ==> GainsBlock(q, q', k)
    ensures GainsSources(q, q', k) ==> n > 0
    ensures srci + n < |g.spt| ==> Filled(q, q', k)
    ensures AllFit(q') && RoomAtHome(q', k + 1, g, home)
  {
    StepStays(q, k, g, srci, home, n, q');
    hide *;
    HomeIsOk(q, k, g, home);
    StepShape(q, k, g, srci, home, n, q');
    if srci + n < |g.spt| {
      StepFills(q, k, g, srci, home, n, q');
    }
  }

  lemma StepStays(q: seq<Update>, k: nat, g: GroupConfig, srci: nat, home: int, n: nat, q': seq<Update>)
    requires k <= |q| && srci <= |g.spt| && PrunesBounded(g) && RoomAtHome(q, k, g, home) && AllFit(q)
    requires Step(q, k, g, srci, home, n, q')
    ensures srci + n <= |g.spt| && k < |q'| && |q| <= |q'|
    ensures forall i :: 0 <= i < |q'| && i != k ==> q'[i] == At(q, i)
    ensures AllFit(q') && RoomAtHome(q', k + 1, g, home)
  {
    StepRoom(q, k, g, srci, home, n, q');
    hide Step, Used, RoomAtHome;
    StepElsewhere(q, q', k);
  }

  lemma StepElsewhere(q: seq<Update>, q': seq<Update>, k: nat)
    requires k <= |q| && k < |q'| && |q'| == if k == |q| then |q| + 1 else |q|
    requires forall i :: 0 <= i < |q| && i != k ==> q'[i] == q[i]
    ensures forall i :: 0 <= i < |q'| && i != k ==> q'[i] == At(q, i)
  {
  }

  lemma StepShape(q: seq<Update>, k: nat, g: GroupConfig, srci: nat, home: int, n: nat, q': seq<Update>)
    requires k <= |q| && srci <= |g.spt| && HomeOk(q, g, home) && k < |q'|
    requires Step(q, k, g, srci, home, n, q')
    ensures ExtendedAt(q, q', g.group, k)
    ensures home == k ==> GainsBlock(q, q', k)
    ensures GainsSources(q, q', k) ==> n > 0
  {
    hide Used, Share, Put, HasBlock, Addresses;
    if n > 0 || home == k {
      var srcs := g.spt[srci..srci + n];
      var e := ChunkEntry(g, srcs, home == k);
      GainsPut(q, k, e);
      ChunkAddresses(g, srcs, home == k);
      ChunkBlock(g, srcs, home == k);
    } else {
      assert q' == q;
    }
  }

  lemma ChunkBlock(g: GroupConfig, srcs: seq<Address>, block: bool)
    requires block ==> g.rpt.Some?
    ensures HasBlock(ChunkEntry(g, srcs, block)) <==> block
    ensures ChunkEntry(g, srcs, block).group == g.group
  {
    ChunkAddresses(g, srcs, block);
    hide Addresses;
  }

  lemma StepFills(q: seq<Update>, k: nat, g: GroupConfig, srci: nat, home: int, n: nat, q': seq<Update>)
    requires k <= |q| && srci <= |g.spt| && PrunesBounded(g) && RoomAtHome(q, k, g, home) && k < |q'|
    requires Step(q, k, g, srci, home, n, q') && srci + n < |g.spt|
    ensures Filled(q, q', k)
  {
    hide Used, ChunkEntry, EntrySize, Put;
    UsedEmpty();
    if n > 0 || home == k {
      var srcs := g.spt[srci..srci + n];
      PutGains(q, k, ChunkEntry(g, srcs, home == k));
      PutAt(q, k, ChunkEntry(g, srcs, home == k));
      ChunkSize(g, srcs, home == k);
      assert At(q', k) == q'[k];
    }
  }

  lemma {:induction false} SpreadPlaces(q: seq<Update>, k: nat, g: GroupConfig, srci: nat, home: int)
    requires k <= |q| && srci <= |g.spt| && PrunesBounded(g) && RoomAtHome(q, k, g, home) && AllFit(q)
    ensures Placed(q, Spread(q, k, g, srci, home), k, g, home)
    ensures srci == |g.spt| ==> NoSources(q, Spread(q, k, g, srci, home), k)
    decreases |g.spt| - srci + (if home >= k then 1 else 0), |q| - k
  {
    hide *;
    HomeIsOk(q, k, g, home);
    if srci < |g.spt| || home >= k {
      var n, q1 := NextStep(q, k, g, srci, home);
      SpreadStep(q, k, g, srci, home, n, q1);
      StepPlaces(q, k, g, srci, home, n, q1);
      SpreadPlaces(q1, k + 1, g, srci + n, home);
      PlacedMore(q, q1, Spread(q1, k + 1, g, srci + n, home), k, g, home, srci + n == |g.spt|);
      if srci == |g.spt| {
        NoSourcesMore(q, q1, Spread(q1, k + 1, g, srci + n, home), k, g, home);
      }
    } else {
      SpreadDone(q, k, g, home);
      PlacedNothing(q, k, g, home);
    }
  }

  lemma HomeIsOk(q: seq<Update>, k: nat, g: GroupConfig, home: int)
    requires RoomAtHome(q, k, g, home)
    ensures HomeOk(q, g, home)
  {
  }

  lemma PlacedNothing(q: seq<Update>, k: nat, g: GroupConfig, home: int)
    requires home < k
    ensures Placed(q, q, k, g, home) && NoSources(q, q, k)
  {
  }

  // A step at k, and the rest from k + 1 on.
  lemma PlacedMore(q: seq<Update>, q1: seq<Update>, q': seq<Update>, k: nat, g: GroupConfig, home: int, done: bool)
    requires k < |q1| && |q| <= |q1| && Placed(q1, q', k + 1, g, home)
    requires forall i :: 0 <= i < |q1| && i != k ==> q1[i] == At(q, i)
    requires ExtendedAt(q, q1, g.group, k) && (home == k ==> GainsBlock(q, q1, k))
    requires if done then NoSources(q1, q', k + 1) else Filled(q, q1, k)
    ensures Placed(q, q', k, g, home)
  {
    SameBehind(q, q1, q', k, g);
    hide Used, HasBlock, Addresses;
    assert q'[k] == q1[k];
  }

  // Behind k the step has changed nothing, so what is gained there is the same.
  lemma SameBehind(q: seq<Update>, q1: seq<Update>, q': seq<Update>, k: nat, g: GroupConfig)
    requires k < |q1| <= |q'| && |q| <= |q1|
    requires forall i :: 0 <= i < |q1| && i != k ==> q1[i] == At(q, i)
    ensures forall i: nat :: i != k ==> At(q1, i) == At(q, i)
    ensures forall i :: k < i < |q'| ==>
              && (ExtendedAt(q1, q', g.group, i) <==> ExtendedAt(q, q', g.group, i))
              && (GainsBlock(q1, q', i) <==> GainsBlock(q, q', i))
              && (GainsSources(q1, q', i) <==> GainsSources(q, q', i))
              && (Filled(q1, q', i) <==> Filled(q, q', i))
  {
    hide Used, HasBlock, Addresses;
    forall i: nat | i != k
      ensures At(q1, i) == At(q, i)
    {
    }
  }

  lemma NoSourcesMore(q: seq<Update>, q1: seq<Update>, q': seq<Update>, k: nat, g: GroupConfig, home: int)
    requires k < |q1| && |q| <= |q1| && Placed(q1, q', k + 1, g, home) && NoSources(q1, q', k + 1)
    requires forall i :: 0 <= i < |q1| && i != k ==> q1[i] == At(q, i)
    requires !GainsSources(q, q1, k)
    ensures NoSources(q, q', k)
  {
    SameBehind(q, q1, q', k, g);
    hide Used, HasBlock, Addresses;
    assert q'[k] == q1[k];
  }

  // The first update that has room for the RPT block.
  ghost predicate FirstForBlock(q: seq<Update>, g: GroupConfig, h: nat)
    requires g.rpt.Some?
  {
    var size := 12 + 8 * (|g.rpt.value.prunes| + 1);
    && h <= |q| && 1466 - Used(At(q, h)) >= size
    && forall i :: 0 <= i < h ==> 1466 - Used(q[i]) < size
  }

  // First fit.  Fitting a group adds at most one entry to each update.  Its RPT block
  // goes to the first update that has room for it; its sources to an update only if no
  // more would fit in any update before it.
  lemma FitGroupFirst(q: seq<Update>, g: GroupConfig)
    requires PrunesBounded(g) && AllFit(q)
    ensures Extended(q, FitGroup(q, g), g.group)
    ensures g.rpt.Some? ==>
              exists h: nat :: h < |FitGroup(q, g)| && FirstForBlock(q, g, h) && GainsBlock(q, FitGroup(q, g), h)
    ensures forall i, j :: 0 <= i < j < |FitGroup(q, g)| && GainsSources(q, FitGroup(q, g), j) ==>
              Filled(q, FitGroup(q, g), i)
  {
    HomeHasRoom(q, g);
    SpreadPlaces(q, 0, g, 0, Home(q, g));
    if g.rpt.Some? {
      assert FirstForBlock(q, g, Home(q, g)) by {
        UsedEmpty();
      }
    }
  }

  // ---- One group of inverse updates ----

  ghost predicate PrunesPlaced(q: seq<Update>, q': seq<Update>, k: nat, a: Address) {
    && |q| <= |q'|
    && (forall i :: 0 <= i < |q'| && i < k ==> q'[i] == At(q, i))
    && (forall i :: k <= i < |q'| ==> ExtendedAt(q, q', a, i))
    && (forall i, j :: k <= i < j < |q'| && q'[j] != At(q, j) ==> Filled(q, q', i))
  }

  lemma PruneStepPlaces(q: seq<Update>, k: nat, a: Address, ss: seq<Source>, i: nat, n: nat, q': seq<Update>)
    requires k <= |q| && i < |ss| && PruneStep(q, k, a, ss, i, n, q') && AllFit(q)
    ensures i + n <= |ss| && AllFit(q') && |q| <= |q'|
    ensures n == 0 ==> q' == q && k < |q|
    ensures n > 0 ==> k < |q'| && forall j :: 0 <= j < |q'| && j != k ==> q'[j] == At(q, j)
    ensures k < |q'| && ExtendedAt(q, q', a, k)
    ensures i + n < |ss| ==> Filled(q, q', k)
  {
    PruneRoom(q, k, a, ss, i, n, q');
    hide Used, AllFit;
    UsedEmpty();
    if n > 0 {
      GainsPut(q, k, PruneEntry(a, ss[i..i + n]));
      PutGains(q, k, PruneEntry(a, ss[i..i + n]));
    }
  }

  lemma {:induction false} SpreadPrunesPlaces(q: seq<Update>, k: nat, a: Address, ss: seq<Source>, i: nat)
    requires k <= |q| && i <= |ss| && AllFit(q)
    ensures PrunesPlaced(q, SpreadPrunes(q, k, a, ss, i), k, a)
    ensures i == |ss| ==> SpreadPrunes(q, k, a, ss, i) == q
    decreases |ss| - i, |q| - k
  {
    if i == |ss| {
      PrunesPlacedNothing(q, k, a);
    } else {
      hide SpreadPrunes, PruneStep, PrunesPlaced, Used, ExtendedAt, Filled, AllFit;
      var n, q1 := NextPrunes(q, k, a, ss, i);
      SpreadPrunesStep(q, k, a, ss, i, n, q1);
      PruneStepPlaces(q, k, a, ss, i, n, q1);
      SpreadPrunesPlaces(q1, k + 1, a, ss, i + n);
      PrunesPlacedMore(q, q1, SpreadPrunes(q1, k + 1, a, ss, i + n), k, a, i + n == |ss|);
    }
  }

  lemma PrunesPlacedNothing(q: seq<Update>, k: nat, a: Address)
    ensures PrunesPlaced(q, q, k, a)
  {
  }

  lemma PrunesPlacedMore(q: seq<Update>, q1: seq<Update>, q': seq<Update>, k: nat, a: Address, done: bool)
    requires k < |q1| && |q| <= |q1| && PrunesPlaced(q1, q', k + 1, a)
    requires q1 == q || forall i :: 0 <= i < |q1| && i != k ==> q1[i] == At(q, i)
    requires ExtendedAt(q, q1, a, k)
    requires if done then q' == q1 else Filled(q, q1, k)
    ensures PrunesPlaced(q, q', k, a)
  {
    SameBehind(q, q1, q', k, GroupConfig(a, None, []));
    hide Used;
    assert q'[k] == q1[k];
  }

  // Pruning a group adds at most one entry to each update, and prunes to an update only
  // if no more would fit in any update before it.
  lemma PruneGroupFirst(q: seq<Update>, g: GroupConfig)
    requires AllFit(q)
    ensures Extended(q, PruneGroup(q, g), g.group)
    ensures forall i, j :: 0 <= i < j < |PruneGroup(q, g)| && PruneGroup(q, g)[j] != At(q, j) ==>
              Filled(q, PruneGroup(q, g), i)
  {
    SpreadPrunesPlaces(q, 0, g.group, Prunes(g, g.rpt.Some? && !DropsRP(q, g)), 0);
  }

  // ---- The order of the groups ----

  // The entries of an update are in the order of the given groups.
  ghost predicate Follows(u: Update, groups: seq<Address>) {
    && (forall i :: 0 <= i < |u| ==> u[i].group in groups)
    && (forall i, j :: 0 <= i < j < |u| ==> Before(u[i].group, u[j].group, groups))
  }

  ghost predicate Before(a: Address, b: Address, groups: seq<Address>) {
    exists x, y :: BeforeAt(a, b, groups, x, y)
  }

  ghost predicate BeforeAt(a: Address, b: Address, groups: seq<Address>, x: int, y: int) {
    0 <= x < y < |groups| && groups[x] == a && groups[y] == b
  }

  ghost predicate AllFollow(q: seq<Update>, groups: seq<Address>) {
    forall i :: 0 <= i < |q| ==> Follows(q[i], groups)
  }

  function Groups(cfg: JPConfig): seq<Address> {
    seq(|cfg|, i requires 0 <= i < |cfg| => cfg[i].group)
  }

  lemma BeforeMore(a: Address, b: Address, groups: seq<Address>, c: Address)
    requires Before(a, b, groups)
    ensures Before(a, b, groups + [c])
  {
    var x, y :| BeforeAt(a, b, groups, x, y);
    assert BeforeAt(a, b, groups + [c], x, y);
  }

  lemma FollowsMore(u: Update, groups: seq<Address>, e: GroupEntry)
    requires Follows(u, groups)
    ensures Follows(u, groups + [e.group]) && Follows(u + [e], groups + [e.group])
  {
    var more := groups + [e.group];
    forall i, j | 0 <= i < j < |u|
      ensures Before(u[i].group, u[j].group, more)
    {
      BeforeMore(u[i].group, u[j].group, groups, e.group);
    }
    forall i | 0 <= i < |u|
      ensures Before(u[i].group, e.group, more)
    {
      var x :| 0 <= x < |groups| && groups[x] == u[i].group;
      assert BeforeAt(u[i].group, e.group, more, x, |groups|);
    }
    assert forall i :: 0 <= i < |u| ==> (u + [e])[i] == u[i];
  }

  lemma ExtendedFollows(q: seq<Update>, q': seq<Update>, groups: seq<Address>, a: Address)
    requires AllFollow(q, groups) && Extended(q, q', a)
    ensures AllFollow(q', groups + [a])
  {
    hide Follows;
    forall i | 0 <= i < |q'|
      ensures Follows(q'[i], groups + [a])
    {
      NothingFollows(groups);
      assert ExtendedAt(q, q', a, i);
      FollowsMore(At(q, i), groups, GroupEntry(a, [], []));
      if e: GroupEntry :| e.group == a && q'[i] == At(q, i) + [e] {
        FollowsMore(At(q, i), groups, e);
      }
    }
  }

  lemma NothingFollows(groups: seq<Address>)
    ensures Follows([], groups)
  {
  }

  lemma GroupsSplit(cfg: JPConfig)
    requires cfg != []
    ensures Groups(cfg) == [cfg[0].group] + Groups(cfg[1..])
  {
  }

  lemma {:induction false} PackFromFollows(q: seq<Update>, cfg: JPConfig, groups: seq<Address>)
    requires AllFit(q) && Dense(q) && AllFollow(q, groups)
    requires forall g :: g in cfg ==> PrunesBounded(g)
    ensures AllFollow(PackFrom(q, cfg), groups + Groups(cfg))
    decreases |cfg|
  {
    hide FitGroup, AllFollow, Extended, AllFit, Dense, PrunesBounded;
    if cfg != [] {
      var g := cfg[0];
      FitGroupFirst(q, g);
      FitGroupDense(q, g);
      ExtendedFollows(q, FitGroup(q, g), groups, g.group);
      PackFromFollows(FitGroup(q, g), cfg[1..], groups + [g.group]);
      GroupsSplit(cfg);
      assert groups + [g.group] + Groups(cfg[1..]) == groups + Groups(cfg);
    } else {
      assert groups + Groups([]) == groups;
    }
  }

  lemma FitGroupDense(q: seq<Update>, g: GroupConfig)
    requires AllFit(q) && Dense(q) && PrunesBounded(g)
    ensures AllFit(FitGroup(q, g)) && Dense(FitGroup(q, g))
  {
    PackFromDense(q, [g]);
    assert PackFrom(q, [g]) == FitGroup(q, g) by {
      assert [g][1..] == [];
      hide FitGroup;
    }
  }

  lemma {:induction false} InverseFromFollows(q: seq<Update>, cfg: JPConfig, groups: seq<Address>)
    requires Tight(q) && AllFollow(q, groups)
    ensures AllFollow(InverseFrom(q, cfg), groups + Groups(cfg))
    decreases |cfg|
  {
    hide PruneGroup, AllFollow, Extended, AllFit;
    if cfg != [] {
      var g := cfg[0];
      PruneGroupFirst(q, g);
      PruneGroupTight(q, g);
      ExtendedFollows(q, PruneGroup(q, g), groups, g.group);
      InverseFromFollows(PruneGroup(q, g), cfg[1..], groups + [g.group]);
      GroupsSplit(cfg);
      assert groups + [g.group] + Groups(cfg[1..]) == groups + Groups(cfg);
    } else {
      assert groups + Groups([]) == groups;
    }
  }

  // In every update, packed or inverse, the entries are in the order of the
  // configuration.
  lemma InOrderOfConfig(cfg: JPConfig)
    requires forall g :: g in cfg ==> PrunesBounded(g)
    ensures forall u :: u in Packed(cfg) ==> Follows(u, Groups(cfg))
    ensures forall u :: u in InversePacked(cfg) ==> Follows(u, Groups(cfg))
  {
    PackFromFollows([], cfg, []);
    InverseFromFollows([], cfg, []);
    assert [] + Groups(cfg) == Groups(cfg);
    hide Follows, Packed, InversePacked;
    AllOf(Packed(cfg), Groups(cfg));
    AllOf(InversePacked(cfg), Groups(cfg));
  }

  lemma AllOf(q: seq<Update>, groups: seq<Address>)
    ensures AllFollow(q, groups) ==> forall u :: u in q ==> Follows(u, groups)
  {
    hide Follows;
  }

  // ---- The lost RP prune in plain numbers ----

  lemma PrefixTight(cfg: JPConfig, m: nat)
    requires m <= |cfg|
    ensures Tight(InversePacked(cfg[..m]))
  {
    InverseDense(cfg[..m]);
  }

  // Group m loses its RP prune exactly if it has an RP and sources, and the inverse
  // updates of the groups before it leave 20 to 27 bytes in the last one.
  lemma DropsInBytes(cfg: JPConfig, m: nat)
    requires m < |cfg|
    ensures var us := InversePacked(cfg[..m]);
            DropsAt(cfg, m) <==>
              && cfg[m].rpt.Some? && cfg[m].spt != []
              && us != [] && 20 <= 1466 - Used(us[|us| - 1]) < 28
  {
    PrefixTight(cfg, m);
    DropsByRoom(InversePacked(cfg[..m]), cfg[m]);
    hide InverseFrom, Used;
  }

  // Behind a single group of n sources that is so exactly if n is 179 modulo 181.
  lemma DropsBehind(first: GroupConfig, second: GroupConfig)
    requires first.rpt.None? && second.rpt.Some? && second.spt != []
    ensures DropsAt([first, second], 1) <==> |first.spt| % 181 == 179
  {
    DropsExactly([first, second], 1);
    var ds := Demands([first, second]);
    assert ds[..1] == [DemandOf(first)];
    assert ds[..1][1..] == [];
    assert RoomAfterAll(0, ds[..1]) == RoomAfterAll(RoomAfter(0, |first.spt|), []);
  }

  // The prunes of a group, in order: the RP first, if its prune is kept, and then the
  // sources.
  lemma PrunesInOrder(cfg: JPConfig, m: nat)
    requires DistinctGroups(cfg) && m < |cfg|
    ensures var all := AllPrunes(EntriesOf(cfg[m].group, InversePacked(cfg)));
            var rp := if cfg[m].rpt.Some? && !DropsAt(cfg, m) then 1 else 0;
            && |all| == rp + |cfg[m].spt|
            && (rp == 1 ==> all[0] == Source(cfg[m].rpt.value.rp, true, true))
            && (forall i :: 0 <= i < |cfg[m].spt| ==> all[rp + i] == Source(cfg[m].spt[i], false, false))
  {
    hide *;
    AllPrunesAre(cfg, m);
    PrunesAre(cfg[m], cfg[m].rpt.Some? && !DropsAt(cfg, m));
  }

  lemma PrunesAre(g: GroupConfig, withRP: bool)
    requires withRP ==> g.rpt.Some?
    ensures var all, rp := Prunes(g, withRP), if withRP then 1 else 0;
            && |all| == rp + |g.spt|
            && (withRP ==> all[0] == Source(g.rpt.value.rp, true, true))
            && (forall i :: 0 <= i < |g.spt| ==> all[rp + i] == Source(g.spt[i], false, false))
  {
  }
}
