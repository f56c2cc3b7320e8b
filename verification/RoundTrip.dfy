// The sanity check and the packer agree: packed updates pass the check, exactly
// when no group asks for nothing.
module RoundTrip {
  import opened JoinPrune
  import opened FirstFit
  import opened Conservation
  import opened Mentions
  import opened Checker
  import opened Loader

  lemma {:induction false} ChunksRpFirst(es: seq<GroupEntry>, g: GroupConfig)
    requires forall e :: e in es ==> IsChunk(e, g)
    ensures RpFirst(es)
  {
    if es != [] {
      var n := |es| - 1;
      assert es == es[..n] + [es[n]];
      assert IsChunk(es[n], g);
      ChunksRpFirst(es[..n], g);
      ViewAppend(es[..n], es[n]);
      assert es[n].prunes != [] ==> HasBlock(es[n]);
    }
  }

  lemma ChunkFlags(e: GroupEntry, g: GroupConfig)
    requires IsChunk(e, g)
    ensures FlagsOk(e)
  {
  }

  // The entries that carry a whole group are acceptable and ask for that group.
  lemma CarriedIsAccepted(es: seq<GroupEntry>, g: GroupConfig)
    requires GroupLoaded(g) && Carries(es, g, |g.spt|, g.rpt.Some?)
    ensures Accepted(es) && Asks(es, g)
  {
    ChunksRpFirst(es, g);
    forall e | e in es
      ensures FlagsOk(e)
    {
      ChunkFlags(e, g);
    }
    hide IsChunk, Listed, RpFirst, FlagsOk;
    assert g.spt[..|g.spt|] == g.spt;
  }

  // The round trip, for every configuration that the loader produces: the packed
  // updates pass the check if and only if no group asks for nothing, whatever
  // the number of groups and however their sources are split.
  lemma PackedVerifies(cfg: JPConfig)
    requires Loaded(cfg)
    ensures Verified(cfg, Packed(cfg)) <==> forall g :: g in cfg ==> !AsksForNothing(g)
  {
    hide EntriesOf, Carries, Accepted, Asks, Packed;
    ConfigsDistinct(cfg);
    PackedCarries(cfg);
    PackedGroups(cfg);
    forall g | g in cfg
      ensures Accepted(EntriesOf(g.group, Packed(cfg))) && Asks(EntriesOf(g.group, Packed(cfg)), g)
    {
      CarriedIsAccepted(EntriesOf(g.group, Packed(cfg)), g);
    }
  }

  // So each configured source, RP and prune is listed once in the packed updates.
  lemma PackedExact(cfg: JPConfig)
    requires Loaded(cfg)
    ensures Exact(cfg, Packed(cfg)) <==> forall g :: g in cfg ==> !AsksForNothing(g)
  {
    hide Verified, Exact, Packed, GroupLoaded;
    PackedVerifies(cfg);
    VerifiedIffExact(cfg, Packed(cfg));
  }

  // The same from the loader's input on.
  lemma LoadedVerifies(raw: seq<RawGroup>, cfg: JPConfig)
    requires LoadsAs(raw, cfg)
    ensures Verified(cfg, Packed(cfg)) <==> forall r :: r in raw ==> !EmptyJoin(r)
  {
    hide Verified, Packed, Reads, RawValid;
    LoadedFromRaw(cfg, raw);
    PackedVerifies(cfg);
  }

  // An input that loads although its one group asks for nothing, and whose packed
  // updates fail the check.
  lemma EmptyJoinFails()
    ensures var raw := [RawGroup(Some(0xe800_0001), None, Some([]))];
            && LoadsAs(raw, [GroupConfig(0xe800_0001, None, [])])
            && forall cfg :: LoadsAs(raw, cfg) ==> Packed(cfg) == [] && !Verified(cfg, Packed(cfg))
  {
    var raw := [RawGroup(Some(0xe800_0001), None, Some([]))];
    var only := [GroupConfig(0xe800_0001, None, [])];
    assert Reads(only[0], raw[0]) && GroupValid(raw[0]);
    LoadedVerifies(raw, only);
    assert raw[0] in raw && EmptyJoin(raw[0]);
    forall cfg | LoadsAs(raw, cfg)
      ensures cfg == only
    {
      LoadsAsOne(raw, cfg, only);
    }
    assert only[1..] == [];
    assert Spread([], 0, only[0], 0, -1) == [];
  }
}
