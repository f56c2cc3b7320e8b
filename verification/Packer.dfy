// The update packer.  Its methods work in place on the shared builder queue;
// together they compute exactly the plain scan of module FirstFit.
module Packer {
  import opened JoinPrune
  import opened FirstFit
  import opened Builders

  class UpdatePacker {
    const bq: BuilderQueue

    constructor ()
      ensures bq.Valid() && fresh(bq) && fresh(bq.Repr)
      ensures bq.Updates == []
    {
      bq := new BuilderQueue();
    }

    // Reserves a builder for the RPT block of the group, null if it has none.
    method FindRptUb(ge: GroupConfig) returns (ub: UpdateBuilder?, ghost home: int)
      requires bq.Valid() && PrunesBounded(ge)
      modifies bq
      ensures bq.Valid() && fresh(bq.Repr - old(bq.Repr))
      ensures bq.Updates == old(bq.Updates)
      ensures home == Home(bq.Updates, ge)
      ensures ub == null <==> ge.rpt.None?
      ensures ub != null ==> home < |bq.ubq| && bq.ubq[home] == ub
      ensures ub != null ==> Room(At(bq.Updates, home)) >= BlockSize(ge)
      ensures ub != null ==> forall k :: 0 <= k < home ==> Room(bq.Updates[k]) < 12 + 8 * (|ge.rpt.value.prunes| + 1)
    {
      hide Used, FirstWithRoom;
      if ge.rpt.None? {
        return null, -1;
      }
      var rptSz := GRP_HDR_SIZE + SRC_SIZE * (|ge.rpt.value.prunes| + 1);
      var c := new UBCursor(bq);
      while c.Addr().Remaining() < rptSz
        invariant c.queue == bq && c.Valid() && fresh(c) && fresh(bq.Repr - old(bq.Repr))
        invariant c.i <= |bq.Updates| && bq.Updates == old(bq.Updates)
        invariant forall k :: 0 <= k < c.i ==> Room(bq.Updates[k]) < rptSz
        decreases |bq.Updates| - c.i
      {
        UsedEmpty();
        c.Advance();
      }
      FirstWithRoomIs(bq.Updates, rptSz, c.i);
      return c.Addr(), c.i;
    }

    // An entry builder that joins the sources [srci, srci + cnt) of the group.
    method NewChunk(ge: GroupConfig, srci: nat, cnt: nat) returns (geb: GroupEntryBuilder)
      requires srci + cnt <= |ge.spt|
      ensures fresh(geb) && geb.Entry() == ChunkEntry(ge, ge.spt[srci..srci + cnt], false)
    {
      geb := new GroupEntryBuilder(ge.group);
      for i := srci to srci + cnt
        invariant geb.Entry() == ChunkEntry(ge, ge.spt[srci..i], false)
      {
        geb.Join(ge.spt[i], false, false);
      }
    }

    // Adds the RP join and all the (S,G,rpt) prunes of the group.
    method AddBlock(geb: GroupEntryBuilder, ge: GroupConfig, ghost srcs: seq<Address>)
      requires ge.rpt.Some? && geb.Entry() == ChunkEntry(ge, srcs, false)
      modifies geb
      ensures geb.Entry() == ChunkEntry(ge, srcs, true)
    {
      var rpt := ge.rpt.value;
      geb.Join(rpt.rp, true, true);
      for i := 0 to |rpt.prunes|
        invariant geb.joins == old(geb.joins) + [Source(rpt.rp, true, true)]
        invariant geb.prunes == RptPrunes(rpt.prunes[..i])
      {
        geb.Prune(rpt.prunes[i], false, true);
      }
      assert rpt.prunes[..|rpt.prunes|] == rpt.prunes;
    }

    // The same with the RPT block of the group behind the sources.
    method NewBlock(ge: GroupConfig, srci: nat, cnt: nat) returns (geb: GroupEntryBuilder)
      requires srci + cnt <= |ge.spt| && ge.rpt.Some?
      ensures fresh(geb) && geb.Entry() == ChunkEntry(ge, ge.spt[srci..srci + cnt], true)
    {
      geb := NewChunk(ge, srci, cnt);
      AddBlock(geb, ge, ge.spt[srci..srci + cnt]);
    }

    // A builder that is not reserved: as many sources as it has room for.
    method PlaceSources(c: UBCursor, ge: GroupConfig, srci: nat) returns (cnt: nat)
      requires c.queue == bq && c.Valid() && srci < |ge.spt|
      modifies bq, c.Addr()
      ensures c.Valid() && bq.Repr == old(bq.Repr) && bq.ubq == old(bq.ubq)
      ensures cnt == Share(old(At(bq.Updates, c.i)), ge, |ge.spt| - srci, false)
      ensures bq.Updates == Served(old(bq.Updates), c.i, ge, srci, cnt, false)
    {
      cnt := Min(MaxSources(c.Addr().Remaining()), |ge.spt| - srci);
      if cnt > 0 {
        var geb := NewChunk(ge, srci, cnt);
        ChunkSize(ge, ge.spt[srci..srci + cnt], false);
        var ok := c.Add(geb);
        assert ok;
      }
    }

    // The reserved builder: the RPT block, and as many sources as fit beside it.
    method PlaceBlock(c: UBCursor, ge: GroupConfig, srci: nat) returns (cnt: nat)
      requires c.queue == bq && c.Valid() && srci < |ge.spt|
      requires ge.rpt.Some? && Room(At(bq.Updates, c.i)) >= BlockSize(ge)
      modifies bq, c.Addr()
      ensures c.Valid() && bq.Repr == old(bq.Repr) && bq.ubq == old(bq.ubq)
      ensures cnt == Share(old(At(bq.Updates, c.i)), ge, |ge.spt| - srci, true)
      ensures bq.Updates == Served(old(bq.Updates), c.i, ge, srci, cnt, true)
    {
      var left: nat := c.Addr().Remaining() - SRC_SIZE * (|ge.rpt.value.prunes| + 1);
      hide Used, ChunkEntry, EntrySize, Put;
      cnt := Min(MaxSources(left), |ge.spt| - srci);
      var geb := NewBlock(ge, srci, cnt);
      ChunkSize(ge, ge.spt[srci..srci + cnt], true);
      var ok := c.Add(geb);
      assert ok;
    }

    // The reserved builder when the sources ran out before it was reached.
    method PlaceBlockAlone(rptUb: UpdateBuilder, ghost home: nat, ge: GroupConfig)
      requires bq.Valid() && home < |bq.ubq| && bq.ubq[home] == rptUb
      requires ge.rpt.Some? && Room(At(bq.Updates, home)) >= BlockSize(ge)
      modifies bq, rptUb
      ensures bq.Valid() && bq.Repr == old(bq.Repr)
      ensures bq.Updates == Put(old(bq.Updates), home, ChunkEntry(ge, [], true))
    {
      var geb := new GroupEntryBuilder(ge.group);
      AddBlock(geb, ge, []);
      ChunkSize(ge, [], true);
      var geSz := geb.Size();
      var entry := geb.Build();
      var ok := bq.AddTo(rptUb, home, entry, geSz);
      assert ok;
    }

    // Serves the builder at the cursor, the reserved one or another.
    method Serve(c: UBCursor, ge: GroupConfig, srci: nat, rptUb: UpdateBuilder?, ghost home: int)
      returns (cnt: nat)
      requires c.queue == bq && c.Valid() && srci < |ge.spt|
      requires Reserved(rptUb, home, c.i, ge)
      modifies bq, c.Addr()
      ensures c.Valid() && bq.Repr == old(bq.Repr) && bq.ubq == old(bq.ubq)
      ensures home == c.i ==> ge.rpt.Some?
      ensures cnt == Share(old(At(bq.Updates, c.i)), ge, |ge.spt| - srci, home == c.i)
      ensures bq.Updates == Served(old(bq.Updates), c.i, ge, srci, cnt, home == c.i)
    {
      ReservedIsHome(rptUb, home, c.i, ge);
      if c.Addr() != rptUb {
        cnt := PlaceSources(c, ge, srci);
      } else {
        cnt := PlaceBlock(c, ge, srci);
      }
    }

    // One round of the placement loop: serves the builder at the cursor, which
    // releases the reserved builder when it is the one served, and moves on.
    method Move(c: UBCursor, ge: GroupConfig, srci: nat, rptUb: UpdateBuilder?, ghost home: int)
      returns (srci': nat, rptUb': UpdateBuilder?)
      requires c.queue == bq && c.Valid() && srci < |ge.spt|
      requires Reserved(rptUb, home, c.i, ge)
      modifies c, bq, c.Addr()
      ensures c.Valid() && fresh(bq.Repr - old(bq.Repr))
      ensures c.i == old(c.i) + 1 <= |bq.Updates|
      ensures home == old(c.i) ==> ge.rpt.Some?
      ensures srci' == srci + Share(old(At(bq.Updates, c.i)), ge, |ge.spt| - srci, home == old(c.i))
      ensures bq.Updates == Served(old(bq.Updates), old(c.i), ge, srci, srci' - srci, home == old(c.i))
      ensures rptUb' == if home == old(c.i) then null else rptUb
      ensures Reserved(rptUb', home, c.i, ge)
    {
      hide Used, BlockSize, ChunkEntry;
      UsedEmpty();
      var reached := c.Addr() == rptUb;
      ReservedIsHome(rptUb, home, c.i, ge);
      var cnt := Serve(c, ge, srci, rptUb, home);
      rptUb' := if reached then null else rptUb;
      srci' := srci + cnt;
      c.Advance();
    }

    // The same round, with what it means for the scan: the rest of the scan is
    // unchanged, and the round places something or finds the builder without room.
    method Visit(c: UBCursor, ge: GroupConfig, srci: nat, rptUb: UpdateBuilder?, ghost home: int)
      returns (srci': nat, rptUb': UpdateBuilder?)
      requires c.queue == bq && c.Valid() && srci < |ge.spt|
      requires HomeOk(bq.Updates, ge, home)
      requires Reserved(rptUb, home, c.i, ge)
      modifies c, bq, c.Addr()
      ensures c.Valid() && fresh(bq.Repr - old(bq.Repr))
      ensures c.i == old(c.i) + 1 <= |bq.Updates|
      ensures srci <= srci' <= |ge.spt|
      ensures rptUb' == if home == old(c.i) then null else rptUb
      ensures HomeOk(bq.Updates, ge, home)
      ensures Reserved(rptUb', home, c.i, ge)
      ensures Spread(bq.Updates, c.i, ge, srci', home) == Spread(old(bq.Updates), old(c.i), ge, srci, home)
      ensures srci' > srci || home == old(c.i) || bq.Updates == old(bq.Updates)
    {
      hide Spread, Served, Share, Used;
      ghost var q, k := bq.Updates, c.i;
      srci', rptUb' := Move(c, ge, srci, rptUb, home);
      SpreadStep(q, k, ge, srci, home, srci' - srci, bq.Updates);
    }

    // The reserved builder sits at home, at or ahead of position i, with room
    // for the RPT block; without one, home is behind or -1.
    ghost predicate Reserved(rptUb: UpdateBuilder?, home: int, i: nat, ge: GroupConfig)
      requires bq.Valid()
      reads bq, bq.Repr
    {
      if rptUb == null then home < i
      else
        && ge.rpt.Some?
        && i <= home < |bq.ubq| && bq.ubq[home] == rptUb
        && Room(At(bq.Updates, home)) >= BlockSize(ge)
    }

    lemma ReservedIsHome(rptUb: UpdateBuilder?, home: int, i: nat, ge: GroupConfig)
      requires bq.Valid() && i < |bq.ubq|
      requires Reserved(rptUb, home, i, ge)
      ensures bq.ubq[i] == rptUb <==> i == home
    {
    }

    method FitGroup(ge: GroupConfig)
      requires bq.Valid() && PrunesBounded(ge)
      modifies bq, bq.Repr
      ensures bq.Valid() && fresh(bq.Repr - old(bq.Repr))
      ensures bq.Updates == FirstFit.FitGroup(old(bq.Updates), ge)
    {
      hide Spread, FirstFit.FitGroup, Used, Put, ChunkEntry;
      ghost var home: int;
      var rptUb: UpdateBuilder?;
      rptUb, home := FindRptUb(ge);

      var c := new UBCursor(bq);
      var srci := 0;
      SpreadFromStart(bq.Updates, ge, bq.start);
      ghost var target := FirstFit.FitGroup(bq.Updates, ge);

      while srci < |ge.spt|
        invariant c.queue == bq && c.Valid() && fresh(c) && fresh(bq.Repr - old(bq.Repr))
        invariant 0 <= srci <= |ge.spt|
        invariant Reserved(rptUb, home, c.i, ge)
        invariant c.i <= |bq.Updates| && HomeOk(bq.Updates, ge, home)
        invariant Spread(bq.Updates, c.i, ge, srci, home) == target
        decreases |ge.spt| - srci + (if rptUb != null then 1 else 0), |bq.Updates| - c.i
      {
        srci, rptUb := Visit(c, ge, srci, rptUb, home);
      }

      if rptUb != null {
        SpreadBlockOnly(bq.Updates, c.i, ge, home);
        PlaceBlockAlone(rptUb, home, ge);
      } else {
        SpreadDone(bq.Updates, c.i, ge, home);
      }
    }

    method PackGroups(cfg: JPConfig)
      requires bq.Valid()
      requires forall g :: g in cfg ==> PrunesBounded(g)
      modifies bq, bq.Repr
      ensures bq.Valid() && fresh(bq.Repr - old(bq.Repr))
      ensures bq.Updates == PackFrom(old(bq.Updates), cfg)
    {
      assert cfg[0..] == cfg;
      for i := 0 to |cfg|
        invariant bq.Valid() && fresh(bq.Repr - old(bq.Repr))
        invariant PackFrom(bq.Updates, cfg[i..]) == PackFrom(old(bq.Updates), cfg)
      {
        assert cfg[i..][0] == cfg[i] && cfg[i..][1..] == cfg[i + 1..];
        FitGroup(cfg[i]);
      }
    }
  }

  method Pack(cfg: JPConfig) returns (updates: seq<Update>)
    requires forall g :: g in cfg ==> PrunesBounded(g)
    ensures updates == Packed(cfg)
  {
    var up := new UpdatePacker();
    up.PackGroups(cfg);
    updates := up.bq.Build();
  }
}
