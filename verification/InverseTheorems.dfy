// What the inverse packing guarantees, and exactly when it loses an RP prune.
module InverseTheorems {
  import opened JoinPrune
  import opened FirstFit
  import opened InverseFit
  import opened PackTheorems
  import opened Conservation

  // ---- Conservation ----

  // The prunes of a list of entries, in order.
  function AllPrunes(es: seq<GroupEntry>): seq<Source> {
    if es == [] then [] else AllPrunes(es[..|es| - 1]) + es[|es| - 1].prunes
  }

  // The entries prune exactly ss, in order, and join nothing.
  ghost predicate PrunesExactly(es: seq<GroupEntry>, ss: seq<Source>) {
    && (forall e :: e in es ==> e.joins == [] && e.prunes != [])
    && AllPrunes(es) == ss
  }

  lemma PrunesMore(es: seq<GroupEntry>, a: Address, ss: seq<Source>, i: nat, n: nat)
    requires i + n <= |ss| && n > 0 && PrunesExactly(es, ss[..i])
    ensures PrunesExactly(es + [PruneEntry(a, ss[i..i + n])], ss[..i + n])
  {
    var fs := es + [PruneEntry(a, ss[i..i + n])];
    assert fs[..|fs| - 1] == es;
    SliceMore(ss, i, n);
  }

  lemma {:induction false} SpreadPrunesCarries(q: seq<Update>, k: nat, a: Address, ss: seq<Source>, i: nat)
    requires k <= |q| && i <= |ss|
    requires AbsentFrom(a, q, k) && PrunesExactly(EntriesOf(a, q), ss[..i])
    ensures PrunesExactly(EntriesOf(a, SpreadPrunes(q, k, a, ss, i)), ss)
    ensures forall b :: b != a ==> EntriesOf(b, SpreadPrunes(q, k, a, ss, i)) == EntriesOf(b, q)
    decreases |ss| - i, |q| - k
  {
    hide Used, PrunesExactly, EntriesOf, EntriesIn;
    if i == |ss| {
      assert ss[..i] == ss;
    } else {
      var n := PruneShare(At(q, k), |ss| - i);
      var q' := Pruned(q, k, a, ss, i, n);
      assert PruneStep(q, k, a, ss, i, n, q');
      UsedEmpty();
      SpreadPrunesStep(q, k, a, ss, i, n, q');
      if n > 0 {
        var e := PruneEntry(a, ss[i..i + n]);
        forall b: Address
          ensures EntriesOf(b, q') == EntriesOf(b, q) + (if b == a then [e] else [])
        {
          EntriesPut(b, q, k, e);
        }
        PutAt(q, k, e);
        PrunesMore(EntriesOf(a, q), a, ss, i, n);
      }
      hide SpreadPrunes, PruneStep, Pruned, PruneShare;
      SpreadPrunesCarries(q', k + 1, a, ss, i + n);
    }
  }

  // ---- Density ----

  // Every update but the last one is full.
  ghost predicate Tight(q: seq<Update>) {
    AllFit(q) && forall i :: 0 <= i < |q| - 1 ==> Full(q[i])
  }

  // The room in the last update.
  function TailRoom(q: seq<Update>): int {
    if q == [] then 0 else Room(q[|q| - 1])
  }

  // The sources that an update with nothing else in it has room for.
  const MAX_ENTRY_SOURCES: nat := 181

  // The room in the last update after n more prunes of one group: either they fit
  // in the room there is, or what is left over fills updates of 181 prunes each.
  function RoomAfter(room: int, n: nat): int {
    if n == 0 then room
    else if n <= MaxSources(room) then room - GRP_HDR_SIZE - SRC_SIZE * n
    else
      var last := (n - MaxSources(room)) % MAX_ENTRY_SOURCES;
      if last == 0 then 6 else JP_CAPACITY - GRP_HDR_SIZE - SRC_SIZE * last
  }

  // Filling up one update does not change where the prunes end.
  lemma RoomAfterMore(room: int, n: nat, left: nat)
    requires room <= JP_CAPACITY && 0 < n == Min(MaxSources(room), left)
    ensures RoomAfter(room - GRP_HDR_SIZE - SRC_SIZE * n, left - n) == RoomAfter(room, left)
  {
  }

  lemma RoomAfterFull(room: int, left: nat)
    requires room < MIN_ENTRY_SIZE && left > 0
    ensures RoomAfter(JP_CAPACITY, left) == RoomAfter(room, left)
  {
  }

  lemma PruneRoom(q: seq<Update>, k: nat, a: Address, ss: seq<Source>, i: nat, n: nat, q': seq<Update>)
    requires k <= |q| && i < |ss| && PruneStep(q, k, a, ss, i, n, q')
    requires AllFit(q)
    ensures i + n <= |ss| && AllFit(q')
    ensures n == 0 ==> q' == q && k < |q| && Full(q[k])
    ensures n > 0 ==>
              && k < |q'| == (if k == |q| then |q| + 1 else |q|)
              && Room(q'[k]) == Room(At(q, k)) - GRP_HDR_SIZE - SRC_SIZE * n
    ensures i + n < |ss| ==> Full(q'[k])
    ensures forall j :: 0 <= j < |q| && j != k ==> q'[j] == q[j]
  {
    hide Used;
    UsedEmpty();
    if n > 0 {
      PutAt(q, k, PruneEntry(a, ss[i..i + n]));
      assert At(q', k) == q'[k];
    }
  }

  // One step keeps the updates tight and uses up the room in the last one.
  lemma TailStep(q: seq<Update>, k: nat, a: Address, ss: seq<Source>, i: nat, n: nat, q': seq<Update>)
    requires k <= |q| && i < |ss| && PruneStep(q, k, a, ss, i, n, q')
    requires Tight(q) && forall j :: 0 <= j < k ==> Full(q[j])
    ensures i + n <= |ss| && Tight(q')
    ensures i + n < |ss| ==> k < |q'| && forall j :: 0 <= j <= k ==> Full(q'[j])
    ensures RoomAfter(TailRoom(q'), |ss| - i - n) == RoomAfter(TailRoom(q), |ss| - i)
  {
    PruneRoom(q, k, a, ss, i, n, q');
    hide Used, Pruned, RoomAfter;
    UsedEmpty();
    if n == 0 {
      assert q' == q;
    } else {
      assert k == |q'| - 1;
      RoomAfterMore(Room(At(q, k)), n, |ss| - i);
      if k == |q| {
        RoomAfterFull(TailRoom(q), |ss| - i);
      }
    }
  }

  // Every update but the last stays full, and the room left in the last one
  // depends on the room before and the number of prunes only.
  lemma {:induction false} SpreadPrunesTight(q: seq<Update>, k: nat, a: Address, ss: seq<Source>, i: nat)
    requires k <= |q| && i <= |ss| && Tight(q)
    requires i < |ss| ==> forall j :: 0 <= j < k ==> Full(q[j])
    ensures Tight(SpreadPrunes(q, k, a, ss, i))
    ensures TailRoom(SpreadPrunes(q, k, a, ss, i)) == RoomAfter(TailRoom(q), |ss| - i)
    decreases |ss| - i, |q| - k
  {
    hide SpreadPrunes, PruneStep, Used;
    if i == |ss| {
      SpreadPrunesDone(q, k, a, ss);
    } else {
      var n, q' := NextPrunes(q, k, a, ss, i);
      TailStep(q, k, a, ss, i, n, q');
      SpreadPrunesStep(q, k, a, ss, i, n, q');
      SpreadPrunesTight(q', k + 1, a, ss, i + n);
    }
  }

  lemma PruneGroupTight(q: seq<Update>, g: GroupConfig)
    requires Tight(q)
    ensures Tight(PruneGroup(q, g))
    ensures TailRoom(PruneGroup(q, g)) == RoomAfter(TailRoom(q), |Prunes(g, g.rpt.Some? && !DropsRP(q, g))|)
  {
    var ss := Prunes(g, g.rpt.Some? && !DropsRP(q, g));
    SpreadPrunesTight(q, 0, g.group, ss, 0);
  }

  lemma {:induction false} InverseFromTight(q: seq<Update>, cfg: JPConfig)
    requires Tight(q)
    ensures Tight(InverseFrom(q, cfg))
    decreases |cfg|
  {
    if cfg != [] {
      PruneGroupTight(q, cfg[0]);
      InverseFromTight(PruneGroup(q, cfg[0]), cfg[1..]);
    }
  }

  // Every inverse update but the last one has fewer than 20 unused bytes,
  // whether or not RP prunes were lost.
  lemma InverseDense(cfg: JPConfig)
    ensures Tight(InversePacked(cfg))
  {
    InverseFromTight([], cfg);
  }

  // ---- Exactly when an RP prune is lost ----

  // Group m of the configuration loses its RP prune.
  predicate DropsAt(cfg: JPConfig, m: nat)
    requires m < |cfg|
  {
    DropsRP(InverseFrom([], cfg[..m]), cfg[m])
  }

  lemma DropsNeedRP(cfg: JPConfig, m: nat)
    requires m < |cfg|
    ensures DropsAt(cfg, m) ==> cfg[m].rpt.Some? && cfg[m].spt != []
  {
  }

  // All that counts of a group: whether it has an RP, and its number of sources.
  datatype Demand = Demand(rp: bool, sources: nat)

  function DemandOf(g: GroupConfig): Demand {
    Demand(g.rpt.Some?, |g.spt|)
  }

  function Demands(cfg: JPConfig): seq<Demand> {
    seq(|cfg|, i requires 0 <= i < |cfg| => DemandOf(cfg[i]))
  }

  // The same in terms of the room left in the last update.
  predicate DropsInRoom(room: int, d: Demand) {
    d.rp && d.sources > 0 && MIN_ENTRY_SIZE <= room < MIN_ENTRY_SIZE + SRC_SIZE
  }

  // The room left in the last update after a list of groups, by counting.
  function RoomAfterAll(room: int, ds: seq<Demand>): int
    decreases |ds|
  {
    if ds == [] then room
    else
      var n := ds[0].sources + (if ds[0].rp && !DropsInRoom(room, ds[0]) then 1 else 0);
      RoomAfterAll(RoomAfter(room, n), ds[1..])
  }

  // Group m loses its RP prune, by counting the sources of the groups up to it.
  predicate Overflows(ds: seq<Demand>, m: nat)
    requires m < |ds|
  {
    DropsInRoom(RoomAfterAll(0, ds[..m]), ds[m])
  }

  lemma DropsByRoom(q: seq<Update>, g: GroupConfig)
    requires Tight(q)
    ensures DropsRP(q, g) <==> DropsInRoom(TailRoom(q), DemandOf(g))
  {
    hide Used;
    var k := FirstWithRoom(q, 0, MIN_ENTRY_SIZE);
    assert k < |q| ==> k == |q| - 1;
  }

  lemma {:induction false} TailByCounting(q: seq<Update>, cfg: JPConfig)
    requires Tight(q)
    ensures TailRoom(InverseFrom(q, cfg)) == RoomAfterAll(TailRoom(q), Demands(cfg))
    decreases |cfg|
  {
    if cfg != [] {
      assert Demands(cfg)[1..] == Demands(cfg[1..]);
      PruneGroupTight(q, cfg[0]);
      DropsByRoom(q, cfg[0]);
      TailByCounting(PruneGroup(q, cfg[0]), cfg[1..]);
    }
  }

  // The RP prune of a group with SPT sources is lost if and only if the prunes of
  // the groups before it leave 20 to 27 bytes in the last update.
  lemma DropsExactly(cfg: JPConfig, m: nat)
    requires m < |cfg|
    ensures DropsAt(cfg, m) <==> Overflows(Demands(cfg), m)
  {
    assert Demands(cfg)[..m] == Demands(cfg[..m]);
    InverseFromTight([], cfg[..m]);
    TailByCounting([], cfg[..m]);
    DropsByRoom(InverseFrom([], cfg[..m]), cfg[m]);
  }

  // A group of 179 sources leaves 22 bytes, so the next group loses its RP prune.
  lemma DropWitness(first: GroupConfig, second: GroupConfig)
    requires first.rpt.None? && |first.spt| == 179
    requires second.rpt.Some? && second.spt != []
    ensures DropsAt([first, second], 1)
  {
    DropsExactly([first, second], 1);
    var ds := Demands([first, second]);
    assert ds[..1] == [DemandOf(first)];
    assert RoomAfterAll(0, ds[..1]) == RoomAfterAll(22, ds[..1][1..]) == 22;
  }

  // ---- Whole configurations ----

  lemma PruneGroupCarries(q: seq<Update>, g: GroupConfig)
    requires EntriesOf(g.group, q) == []
    ensures PrunesExactly(EntriesOf(g.group, PruneGroup(q, g)), Prunes(g, g.rpt.Some? && !DropsRP(q, g)))
    ensures forall a :: a != g.group ==> EntriesOf(a, PruneGroup(q, g)) == EntriesOf(a, q)
  {
    var ss := Prunes(g, g.rpt.Some? && !DropsRP(q, g));
    AbsentIffNone(g.group, q);
    assert ss[..0] == [];
    SpreadPrunesCarries(q, 0, g.group, ss, 0);
  }

  // What is pruned for group m, given the updates q that earlier groups left.
  function Kept(q: seq<Update>, cfg: JPConfig, m: nat): seq<Source>
    requires m < |cfg|
  {
    var g := cfg[m];
    Prunes(g, g.rpt.Some? && !DropsRP(InverseFrom(q, cfg[..m]), g))
  }

  lemma KeptStep(q: seq<Update>, cfg: JPConfig, m: nat)
    requires m < |cfg|
    ensures m == 0 ==> Kept(q, cfg, m) == Prunes(cfg[0], cfg[0].rpt.Some? && !DropsRP(q, cfg[0]))
    ensures m > 0 ==> Kept(q, cfg, m) == Kept(PruneGroup(q, cfg[0]), cfg[1..], m - 1)
  {
    hide DropsRP, PruneGroup, Prunes;
    if m > 0 {
      assert cfg[..m][0] == cfg[0] && cfg[..m][1..] == cfg[1..][..m - 1];
    } else {
      assert cfg[..0] == [];
    }
  }

  lemma {:induction false} InverseFromCarries(q: seq<Update>, cfg: JPConfig)
    requires DistinctGroups(cfg)
    requires forall g :: g in cfg ==> EntriesOf(g.group, q) == []
    ensures forall m :: 0 <= m < |cfg| ==>
              PrunesExactly(EntriesOf(cfg[m].group, InverseFrom(q, cfg)), Kept(q, cfg, m))
    ensures forall a :: a !in GroupSet(cfg) ==> EntriesOf(a, InverseFrom(q, cfg)) == EntriesOf(a, q)
    decreases |cfg|
  {
    hide PrunesExactly, EntriesOf, PruneGroup, DropsRP, Prunes, Kept;
    if cfg != [] {
      var g, rest := cfg[0], cfg[1..];
      var q' := PruneGroup(q, g);
      assert forall i :: 0 <= i < |rest| ==> rest[i] == cfg[i + 1];
      PruneGroupCarries(q, g);
      InverseFromCarries(q', rest);
      assert cfg == [g] + rest;
      assert GroupSet(cfg) == {g.group} + GroupSet(rest);
      forall m | 0 <= m < |cfg|
        ensures PrunesExactly(EntriesOf(cfg[m].group, InverseFrom(q, cfg)), Kept(q, cfg, m))
      {
        KeptStep(q, cfg, m);
        assert m > 0 ==> cfg[m] == rest[m - 1];
        assert m == 0 ==> g.group !in GroupSet(rest);
      }
    }
  }

  // Conservation.  Over the inverse updates in order, each group prunes its RP,
  // unless that prune is dropped, and then exactly its SPT sources, in order.
  lemma InverseCarries(cfg: JPConfig)
    requires DistinctGroups(cfg)
    ensures forall m :: 0 <= m < |cfg| ==>
              PrunesExactly(EntriesOf(cfg[m].group, InversePacked(cfg)),
                            Prunes(cfg[m], cfg[m].rpt.Some? && !DropsAt(cfg, m)))
    ensures forall a :: a !in GroupSet(cfg) ==> EntriesOf(a, InversePacked(cfg)) == []
  {
    InverseFromCarries([], cfg);
    assert forall m :: 0 <= m < |cfg| ==>
      Kept([], cfg, m) == Prunes(cfg[m], cfg[m].rpt.Some? && !DropsAt(cfg, m));
  }

  lemma AllPrunesAre(cfg: JPConfig, m: nat)
    requires DistinctGroups(cfg) && m < |cfg|
    ensures AllPrunes(EntriesOf(cfg[m].group, InversePacked(cfg)))
         == Prunes(cfg[m], cfg[m].rpt.Some? && !DropsAt(cfg, m))
  {
    InverseCarries(cfg);
    hide InversePacked, EntriesOf, DropsAt, AllPrunes, Prunes;
    assert PrunesExactly(EntriesOf(cfg[m].group, InversePacked(cfg)),
                         Prunes(cfg[m], cfg[m].rpt.Some? && !DropsAt(cfg, m)));
  }

  // ---- Shape of an update ----

  lemma PruneShapedStep(q: seq<Update>, k: nat, a: Address, ss: seq<Source>, i: nat, n: nat, q': seq<Update>)
    requires k <= |q| && i < |ss| && PruneStep(q, k, a, ss, i, n, q')
    requires AllShaped(q) && AbsentFrom(a, q, k)
    ensures AllShaped(q') && AbsentFrom(a, q', k + 1)
  {
    hide Used, EntriesIn, Shaped;
    if n > 0 {
      var e := PruneEntry(a, ss[i..i + n]);
      assert EntriesIn(a, At(q, k)) == [] by { EntriesInNone(a); }
      ShapedAppend(At(q, k), e);
      PutAt(q, k, e);
      assert forall j :: 0 <= j < |q'| ==> q'[j] == At(q', j);
    }
  }

  lemma {:induction false} SpreadPrunesShaped(q: seq<Update>, k: nat, a: Address, ss: seq<Source>, i: nat)
    requires k <= |q| && i <= |ss|
    requires AllShaped(q) && AbsentFrom(a, q, k)
    ensures AllShaped(SpreadPrunes(q, k, a, ss, i))
    decreases |ss| - i, |q| - k
  {
    hide SpreadPrunes, PruneStep, Used, Shaped, EntriesIn;
    if i == |ss| {
      SpreadPrunesDone(q, k, a, ss);
    } else {
      var n, q' := NextPrunes(q, k, a, ss, i);
      SpreadPrunesStep(q, k, a, ss, i, n, q');
      PruneShapedStep(q, k, a, ss, i, n, q');
      SpreadPrunesShaped(q', k + 1, a, ss, i + n);
    }
  }

  lemma {:induction false} InverseFromShaped(q: seq<Update>, cfg: JPConfig)
    requires DistinctGroups(cfg) && AllShaped(q)
    requires forall g :: g in cfg ==> EntriesOf(g.group, q) == []
    ensures AllShaped(InverseFrom(q, cfg))
    decreases |cfg|
  {
    hide AllShaped, EntriesOf, DropsRP, Prunes;
    if cfg != [] {
      var g, rest := cfg[0], cfg[1..];
      assert forall i :: 0 <= i < |rest| ==> rest[i] == cfg[i + 1];
      AbsentIffNone(g.group, q);
      SpreadPrunesShaped(q, 0, g.group, Prunes(g, g.rpt.Some? && !DropsRP(q, g)), 0);
      PruneGroupCarries(q, g);
      InverseFromShaped(PruneGroup(q, g), rest);
    }
  }

  // No inverse update is empty, exceeds its capacity, names a group twice, or has more
  // than 73 entries.
  lemma InverseShape(cfg: JPConfig)
    requires DistinctGroups(cfg)
    ensures AllShaped(InversePacked(cfg)) && AllFit(InversePacked(cfg))
    ensures forall u :: u in InversePacked(cfg) ==> |u| <= 73
  {
    InverseFromShaped([], cfg);
    InverseDense(cfg);
    forall u | u in InversePacked(cfg)
      ensures |u| <= 73
    {
      assert Shaped(u) && Fits(u);
      ShapedCount(u);
    }
  }
}
