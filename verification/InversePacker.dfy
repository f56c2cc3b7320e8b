// The inverse packer, which works in place on the same builder queue and cursor.
module InversePacker {
  import opened JoinPrune
  import opened FirstFit
  import opened InverseFit
  import opened Builders

  class InverseUpdatePacker {
    const bq: BuilderQueue

    constructor ()
      ensures bq.Valid() && fresh(bq) && fresh(bq.Repr)
      ensures bq.Updates == []
    {
      bq := new BuilderQueue();
    }

    method PruneSources(geb: GroupEntryBuilder, spt: seq<Address>, srci: nat, cnt: nat)
      requires srci + cnt <= |spt|
      modifies geb`prunes
      ensures geb.prunes == old(geb.prunes) + SptSources(spt[srci..srci + cnt])
    {
      for i := srci to srci + cnt
        invariant geb.prunes == old(geb.prunes) + SptSources(spt[srci..i])
      {
        geb.Prune(spt[i], false, false);
      }
    }

    // The update at the cursor takes the entry.
    method Place(c: UBCursor, geb: GroupEntryBuilder, ghost ss: seq<Source>)
      requires c.queue == bq && c.Valid() && geb !in bq.Repr
      requires geb.joins == [] && geb.prunes == ss
      requires 0 < |ss| <= MaxSources(Room(At(bq.Updates, c.i)))
      modifies geb, bq, c.Addr()
      ensures c.Valid() && bq.Repr == old(bq.Repr) && bq.ubq == old(bq.ubq)
      ensures bq.Updates == Put(old(bq.Updates), c.i, PruneEntry(geb.group, ss))
    {
      hide Used;
      var ok := c.Add(geb);
      assert ok;
    }

    // The prunes of the group that the source's two counters stand at.
    ghost function Index(ge: GroupConfig, ss: seq<Source>, srci: nat, pruneRP: nat): int {
      if pruneRP == 1 then 0 else |ss| - |ge.spt| + srci
    }

    ghost predicate Counting(ge: GroupConfig, ss: seq<Source>, srci: nat, pruneRP: nat, rp: bool) {
      && (rp ==> ge.rpt.Some?) && ss == Prunes(ge, rp)
      && srci <= |ge.spt| && pruneRP <= 1
      && (pruneRP == 1 ==> srci == 0 && ge.rpt.Some?)
    }

    lemma PrunesSlice(ge: GroupConfig, srci: nat, cnt: nat, rp: bool)
      requires rp ==> ge.rpt.Some?
      requires srci + cnt <= |ge.spt|
      ensures var ss, i := Prunes(ge, rp), (if rp then 1 else 0) + srci;
              && |ss| == (if rp then 1 else 0) + |ge.spt|
              && (rp ==> ss[0] == Source(ge.rpt.value.rp, true, true))
              && ss[i..i + cnt] == SptSources(ge.spt[srci..srci + cnt])
              && (rp && srci == 0 ==> ss[0..1 + cnt] == [ss[0]] + ss[1..1 + cnt])
    {
    }

    // Fills the update at the cursor with the next cnt prunes.
    method ServeBuilder(c: UBCursor, ge: GroupConfig, ghost ss: seq<Source>, srci: nat, pruneRP: nat, cnt: nat,
                        ghost rp: bool)
      requires c.queue == bq && c.Valid()
      requires Counting(ge, ss, srci, pruneRP, rp) && (pruneRP == 1 ==> rp)
      requires pruneRP < cnt <= MaxSources(Room(At(bq.Updates, c.i)))
      requires srci + cnt - pruneRP <= |ge.spt|
      modifies bq, c.Addr()
      ensures c.Valid() && bq.Repr == old(bq.Repr) && bq.ubq == old(bq.ubq)
      ensures bq.Updates == Pruned(old(bq.Updates), c.i, ge.group, ss, Index(ge, ss, srci, pruneRP), cnt)
    {
      hide Used, SptSources, Put;
      var geb := new GroupEntryBuilder(ge.group);
      if pruneRP == 1 {
        geb.Prune(ge.rpt.value.rp, true, true);
      }
      PruneSources(geb, ge.spt, srci, cnt - pruneRP);
      PrunesSlice(ge, srci, cnt - pruneRP, rp);
      ghost var i := Index(ge, ss, srci, pruneRP);
      assert geb.prunes == ss[i..i + cnt] by {
        if pruneRP == 0 {
          assert [] + SptSources(ge.spt[srci..srci + cnt]) == SptSources(ge.spt[srci..srci + cnt]);
        }
      }
      Place(c, geb, geb.prunes);
    }

    // Whether a scan of q that has reached position k without finding room, and
    // so with the RP prune still pending, is about to drop it.
    lemma DropDecided(q: seq<Update>, k: nat, g: GroupConfig)
      requires k <= |q| && g.rpt.Some? && g.spt != []
      requires forall i :: 0 <= i < k ==> Full(q[i])
      requires MaxSources(Room(At(q, k))) > 0
      ensures DropsRP(q, g) <==> MaxSources(Room(At(q, k))) == 1
    {
      UsedEmpty();
      FirstWithRoomIs(q, MIN_ENTRY_SIZE, k);
    }

    // The state of the placement loop: while the RP prune is pending nothing is
    // placed and no room was found; after that the scan is under way.
    ghost predicate Scanning(q0: seq<Update>, q: seq<Update>, k: nat, ge: GroupConfig, ss: seq<Source>,
                             srci: nat, pruneRP: nat)
    {
      && Counting(ge, ss, srci, pruneRP, ge.rpt.Some? && !DropsRP(q0, ge))
      && k <= |q|
      && (pruneRP == 1 ==> q == q0 && forall i :: 0 <= i < k ==> Full(q0[i]))
      && SpreadPrunes(q, k, ge.group, ss, Index(ge, ss, srci, pruneRP)) == PruneGroup(q0, ge)
    }

    lemma ScanStarts(q0: seq<Update>, start: nat, ge: GroupConfig)
      requires start <= |q0| && forall i :: 0 <= i < start ==> Full(q0[i])
      ensures var ss := Prunes(ge, ge.rpt.Some? && !DropsRP(q0, ge));
              Scanning(q0, q0, start, ge, ss, 0, if ge.rpt.Some? then 1 else 0)
    {
      var ss := Prunes(ge, ge.rpt.Some? && !DropsRP(q0, ge));
      SpreadPrunesSkips(q0, 0, ge.group, ss, start);
    }

    // The update at the cursor has no room.
    lemma ScanSkips(q0: seq<Update>, q: seq<Update>, k: nat, ge: GroupConfig, ss: seq<Source>, srci: nat, pruneRP: nat)
      requires Scanning(q0, q, k, ge, ss, srci, pruneRP) && srci < |ge.spt|
      requires MaxSources(Room(At(q, k))) == 0
      ensures Scanning(q0, q, k + 1, ge, ss, srci, pruneRP) && At(q, k) != []
    {
      hide SptSources, Used, SpreadPrunes, PruneGroup, DropsRP, Prunes;
      UsedEmpty();
      PrunesSlice(ge, 0, 0, ge.rpt.Some? && !DropsRP(q0, ge));
      SpreadPrunesStep(q, k, ge.group, ss, Index(ge, ss, srci, pruneRP), 0, q);
    }

    // It has room for the RP prune and nothing else, which drops that prune.
    lemma ScanDrops(q0: seq<Update>, q: seq<Update>, k: nat, ge: GroupConfig, ss: seq<Source>)
      requires Scanning(q0, q, k, ge, ss, 0, 1) && ge.spt != []
      requires MaxSources(Room(At(q, k))) == 1
      ensures Scanning(q0, q, k, ge, ss, 0, 0)
    {
      hide SptSources, Used, SpreadPrunes, PruneGroup, DropsRP, Prunes;
      DropDecided(q0, k, ge);
      PrunesSlice(ge, 0, 0, false);
    }

    // It takes cnt prunes, more than just that of the RP.
    lemma ScanPlaces(q0: seq<Update>, q: seq<Update>, k: nat, ge: GroupConfig, ss: seq<Source>, srci: nat, pruneRP: nat,
                     cnt: nat, i: nat, q': seq<Update>)
      requires Scanning(q0, q, k, ge, ss, srci, pruneRP) && srci < |ge.spt|
      requires pruneRP < cnt == Min(MaxSources(Room(At(q, k))), pruneRP + |ge.spt| - srci)
      requires i == Index(ge, ss, srci, pruneRP) && i + cnt <= |ss|
      requires q' == Pruned(q, k, ge.group, ss, i, cnt)
      ensures Scanning(q0, q', k + 1, ge, ss, srci + cnt - pruneRP, 0) && At(q', k) != []
    {
      hide SptSources, Used, SpreadPrunes, PruneGroup, DropsRP, Prunes, MaxSources;
      if pruneRP == 1 {
        DropDecided(q0, k, ge);
      }
      PrunesSlice(ge, 0, 0, ge.rpt.Some? && !DropsRP(q0, ge));
      SpreadPrunesStep(q, k, ge.group, ss, i, cnt, q');
    }

    lemma KeepsRP(q0: seq<Update>, q: seq<Update>, k: nat, ge: GroupConfig, ss: seq<Source>, srci: nat,
                  pruneRP: nat, cnt: nat)
      requires Scanning(q0, q, k, ge, ss, srci, pruneRP) && srci < |ge.spt|
      requires pruneRP < cnt == Min(MaxSources(Room(At(q, k))), pruneRP + |ge.spt| - srci)
      ensures pruneRP == 1 ==> !DropsRP(q0, ge)
      ensures 0 <= Index(ge, ss, srci, pruneRP) <= |ss| - cnt
    {
      hide SptSources, Used, SpreadPrunes, PruneGroup, DropsRP, Prunes;
      if pruneRP == 1 {
        DropDecided(q0, k, ge);
      }
      PrunesSlice(ge, 0, 0, ge.rpt.Some? && !DropsRP(q0, ge));
    }

    // A group without sources: the RP prune goes to the first update with room.
    method PlaceRP(c: UBCursor, ge: GroupConfig, ghost ss: seq<Source>)
      requires c.queue == bq && c.Valid() && c.i <= |bq.Updates|
      requires ge.rpt.Some? && ss == [Source(ge.rpt.value.rp, true, true)]
      modifies c, bq, bq.Repr
      ensures bq.Valid() && fresh(bq.Repr - old(bq.Repr))
      ensures bq.Updates == SpreadPrunes(old(bq.Updates), old(c.i), ge.group, ss, 0)
    {
      hide SpreadPrunes, Used, Put, MaxSources;
      SeekRoom(c, ge.group, ss);
      var geb := new GroupEntryBuilder(ge.group);
      geb.Prune(ge.rpt.value.rp, true, true);
      ghost var q, k := bq.Updates, c.i;
      Place(c, geb, ss);
      assert ss[0..1] == ss;
      SpreadPrunesStep(q, k, ge.group, ss, 0, 1, bq.Updates);
      SpreadPrunesDone(bq.Updates, k + 1, ge.group, ss);
    }

    // Moves on to the first update with room for a source.
    method SeekRoom(c: UBCursor, ghost a: Address, ghost ss: seq<Source>)
      requires c.queue == bq && c.Valid() && c.i <= |bq.Updates| && |ss| == 1
      modifies c, bq
      ensures c.Valid() && fresh(bq.Repr - old(bq.Repr))
      ensures c.i <= |bq.Updates| && bq.Updates == old(bq.Updates)
      ensures PruneShare(At(bq.Updates, c.i), 1) == 1
      ensures SpreadPrunes(bq.Updates, c.i, a, ss, 0) == SpreadPrunes(old(bq.Updates), old(c.i), a, ss, 0)
    {
      hide SpreadPrunes, Used, Put;
      UsedEmpty();
      var cnt := Min(MaxSources(c.Addr().Remaining()), 1);
      while cnt == 0
        invariant c.queue == bq && c.Valid() && fresh(bq.Repr - old(bq.Repr))
        invariant c.i <= |bq.Updates| && bq.Updates == old(bq.Updates)
        invariant cnt == PruneShare(At(bq.Updates, c.i), 1)
        invariant SpreadPrunes(bq.Updates, c.i, a, ss, 0) == SpreadPrunes(old(bq.Updates), old(c.i), a, ss, 0)
        decreases |bq.Updates| - c.i
      {
        SpreadPrunesStep(bq.Updates, c.i, a, ss, 0, 0, bq.Updates);
        c.Advance();
        cnt := Min(MaxSources(c.Addr().Remaining()), 1);
      }
    }

    lemma ScanCounters(q0: seq<Update>, q: seq<Update>, k: nat, ge: GroupConfig, ss: seq<Source>, srci: nat,
                       pruneRP: nat)
      requires Scanning(q0, q, k, ge, ss, srci, pruneRP)
      ensures Counting(ge, ss, srci, pruneRP, ge.rpt.Some? && !DropsRP(q0, ge))
      ensures k <= |q|
    {
    }

    // All sources are placed.
    lemma ScanEnds(q0: seq<Update>, q: seq<Update>, k: nat, ge: GroupConfig, ss: seq<Source>, srci: nat, pruneRP: nat)
      requires Scanning(q0, q, k, ge, ss, srci, pruneRP) && srci == |ge.spt|
      ensures pruneRP == 0 ==> q == PruneGroup(q0, ge)
      ensures pruneRP == 1 ==>
                && ge.rpt.Some? && k <= |q| && ss == [Source(ge.rpt.value.rp, true, true)]
                && SpreadPrunes(q, k, ge.group, ss, 0) == PruneGroup(q0, ge)
    {
      if pruneRP == 0 {
        PrunesSlice(ge, 0, 0, ge.rpt.Some? && !DropsRP(q0, ge));
        SpreadPrunesDone(q, k, ge.group, ss);
      }
    }

    // One round of the placement loop at the update under the cursor.
    method Round(c: UBCursor, ge: GroupConfig, ghost q0: seq<Update>, ghost ss: seq<Source>, srci: nat, pruneRP: nat)
      returns (srci': nat, pruneRP': nat)
      requires c.queue == bq && c.Valid() && srci < |ge.spt|
      requires Scanning(q0, bq.Updates, c.i, ge, ss, srci, pruneRP)
      modifies c, bq, c.Addr()
      ensures c.Valid() && fresh(bq.Repr - old(bq.Repr))
      ensures Scanning(q0, bq.Updates, c.i, ge, ss, srci', pruneRP')
      ensures srci <= srci' && pruneRP' <= pruneRP
      ensures srci' > srci || pruneRP' < pruneRP || (bq.Updates == old(bq.Updates) && c.i == old(c.i) + 1)
    {
      hide SpreadPrunes, Used, SptSources, PruneGroup, DropsRP, Prunes, Scanning, MaxSources, Pruned;
      ghost var q, k := bq.Updates, c.i;
      ghost var rp := ge.rpt.Some? && !DropsRP(q0, ge);
      ScanCounters(q0, q, k, ge, ss, srci, pruneRP);
      srci', pruneRP' := srci, pruneRP;
      var cnt := Min(MaxSources(c.Addr().Remaining()), pruneRP + |ge.spt| - srci);
      if cnt == 0 {
        ScanSkips(q0, q, k, ge, ss, srci, pruneRP);
      } else {
        if cnt == pruneRP {
          // The entry built for the RP prune alone is dropped with it, and the
          // same update is tried again.
          ScanDrops(q0, q, k, ge, ss);
          pruneRP' := 0;
          return;
        }
        KeepsRP(q0, q, k, ge, ss, srci, pruneRP, cnt);
        ServeBuilder(c, ge, ss, srci, pruneRP, cnt, rp);
        ScanPlaces(q0, q, k, ge, ss, srci, pruneRP, cnt, Index(ge, ss, srci, pruneRP), bq.Updates);
        srci' := srci + cnt - pruneRP;
        pruneRP' := 0;
      }
      c.Advance();
    }

    method FitGroup(ge: GroupConfig)
      requires bq.Valid()
      modifies bq, bq.Repr
      ensures bq.Valid() && fresh(bq.Repr - old(bq.Repr))
      ensures bq.Updates == PruneGroup(old(bq.Updates), ge)
    {
      hide SpreadPrunes, Used, SptSources, PruneGroup, DropsRP, Prunes, Scanning;
      var c := new UBCursor(bq);
      var pruneRP: nat := if ge.rpt.Some? then 1 else 0;
      var srci: nat := 0;
      ghost var q0 := bq.Updates;
      ghost var ss := Prunes(ge, ge.rpt.Some? && !DropsRP(q0, ge));
      ScanStarts(q0, c.i, ge);

      while srci < |ge.spt|
        invariant c.queue == bq && c.Valid() && fresh(c) && fresh(bq.Repr - old(bq.Repr))
        invariant Scanning(q0, bq.Updates, c.i, ge, ss, srci, pruneRP)
        decreases |ge.spt| - srci + pruneRP, |bq.Updates| - c.i
      {
        ScanCounters(q0, bq.Updates, c.i, ge, ss, srci, pruneRP);
        srci, pruneRP := Round(c, ge, q0, ss, srci, pruneRP);
        ScanCounters(q0, bq.Updates, c.i, ge, ss, srci, pruneRP);
      }

      ScanCounters(q0, bq.Updates, c.i, ge, ss, srci, pruneRP);
      ScanEnds(q0, bq.Updates, c.i, ge, ss, srci, pruneRP);
      if pruneRP == 1 {
        PlaceRP(c, ge, ss);
      }
    }

    method PackGroups(cfg: JPConfig)
      requires bq.Valid()
      modifies bq, bq.Repr
      ensures bq.Valid() && fresh(bq.Repr - old(bq.Repr))
      ensures bq.Updates == InverseFrom(old(bq.Updates), cfg)
    {
      assert cfg[0..] == cfg;
      for i := 0 to |cfg|
        invariant bq.Valid() && fresh(bq.Repr - old(bq.Repr))
        invariant InverseFrom(bq.Updates, cfg[i..]) == InverseFrom(old(bq.Updates), cfg)
      {
        assert cfg[i..][0] == cfg[i] && cfg[i..][1..] == cfg[i + 1..];
        FitGroup(cfg[i]);
      }
    }
  }

  method InversePack(cfg: JPConfig) returns (updates: seq<Update>)
    ensures updates == InversePacked(cfg)
  {
    var up := new InverseUpdatePacker();
    up.PackGroups(cfg);
    updates := up.bq.Build();
  }
}
