// What pimc does with a loaded configuration before it sends anything: it packs
// it both ways, and refuses to start if one of the results fails its check.
module Startup {
  import opened JoinPrune
  import opened FirstFit
  import opened InverseFit
  import opened Conservation
  import opened InverseTheorems
  import opened Mentions
  import opened Checker
  import opened InverseChecker
  import opened RoundTrip
  import opened Loader
  import Packer
  import InversePacker

  // ---- Inverse updates against their check ----

  lemma {:induction false} AllPrunesListed(es: seq<GroupEntry>, w: bool)
    ensures Listed(es, true, w) == Addresses(AllPrunes(es), w)
  {
    if es != [] {
      var n := |es| - 1;
      AllPrunesListed(es[..n], w);
      assert es == es[..n] + [es[n]];
      ListedAppend(es[..n], [es[n]], true, w);
      ListedOne(es[n], true, w);
      AddressesConcat(AllPrunes(es[..n]), es[n].prunes, w);
    }
  }

  lemma {:induction false} AddressesConcat(s: seq<Source>, t: seq<Source>, w: bool)
    ensures Addresses(s + t, w) == Addresses(s, w) + Addresses(t, w)
  {
    if t == [] {
      assert s + t == s;
    } else {
      var n := |t| - 1;
      AddressesConcat(s, t[..n], w);
      hide Addresses;
      LastMoved(s, t);
      AddressesAppend(s + t[..n], t[n], w);
      AddressesAppend(t[..n], t[n], w);
    }
  }

  lemma LastMoved<T>(s: seq<T>, t: seq<T>)
    requires t != []
    ensures s + t == (s + t[..|t| - 1]) + [t[|t| - 1]] && t == t[..|t| - 1] + [t[|t| - 1]]
  {
  }

  lemma PrunesAddresses(g: GroupConfig, withRP: bool)
    requires withRP ==> g.rpt.Some?
    ensures Addresses(Prunes(g, withRP), false) == g.spt
    ensures Addresses(Prunes(g, withRP), true) == RpOf(g, withRP)
  {
    SptSourcesAddresses(g.spt);
    if withRP {
      var rp := [Source(g.rpt.value.rp, true, true)];
      assert rp[..0] == [];
      AddressesConcat(rp, SptSources(g.spt), false);
      AddressesConcat(rp, SptSources(g.spt), true);
    } else {
      assert [] + SptSources(g.spt) == SptSources(g.spt);
    }
  }

  lemma PrunesFlags(g: GroupConfig, withRP: bool)
    requires withRP ==> g.rpt.Some?
    ensures forall s :: s in Prunes(g, withRP) ==> s.wildcard == s.rpt
    ensures Prunes(g, withRP) == [] <==> g.spt == [] && !withRP
  {
  }

  lemma {:induction false} PrunesFlagged(es: seq<GroupEntry>)
    requires forall e :: e in es ==> e.joins == [] && e.prunes != []
    requires forall s :: s in AllPrunes(es) ==> s.wildcard == s.rpt
    ensures forall e :: e in es ==> InverseFlagsOk(e)
    ensures es == [] <==> AllPrunes(es) == []
  {
    forall e | e in es
      ensures InverseFlagsOk(e)
    {
      forall s | s in e.prunes
        ensures s.wildcard == s.rpt
      {
        PruneListed(es, e, s);
      }
    }
  }

  // Entries that prune exactly the prunes of g, with or without its RP, are
  // acceptable, and undo the group only if its RP prune is not missing.
  lemma PrunedIsAccepted(es: seq<GroupEntry>, g: GroupConfig, withRP: bool)
    requires withRP ==> g.rpt.Some?
    requires NoDuplicates(g.spt) && PrunesExactly(es, Prunes(g, withRP))
    ensures InverseAccepted(es)
    ensures Undoes(es, g) <==> withRP == g.rpt.Some?
    ensures es == [] <==> Prunes(g, withRP) == []
  {
    hide Listed, Addresses, Prunes, InverseFlagsOk, AllPrunes;
    PrunesFlags(g, withRP);
    AllPrunesListed(es, false);
    AllPrunesListed(es, true);
    PrunesAddresses(g, withRP);
    PrunesFlagged(es);
  }

  lemma {:induction false} PruneListed(es: seq<GroupEntry>, e: GroupEntry, s: Source)
    requires e in es && s in e.prunes
    ensures s in AllPrunes(es)
  {
    var n := |es| - 1;
    if e != es[n] {
      assert es == es[..n] + [es[n]];
      PruneListed(es[..n], e, s);
    }
  }

  // The inverse updates fail their check exactly when some RP prune was lost or
  // some group asks for nothing.
  lemma InverseVerifies(cfg: JPConfig)
    requires Loaded(cfg)
    ensures InverseVerified(cfg, InversePacked(cfg)) <==>
            && (forall g :: g in cfg ==> !AsksForNothing(g))
            && (forall m :: 0 <= m < |cfg| ==> !DropsAt(cfg, m))
  {
    hide EntriesOf, InverseAccepted, Undoes, InversePacked, DropsAt, PrunesExactly, Prunes;
    ConfigsDistinct(cfg);
    InverseCarries(cfg);
    var us := InversePacked(cfg);
    forall m | 0 <= m < |cfg|
      ensures cfg[m].group in Configs(cfg) && Configs(cfg)[cfg[m].group] == cfg[m]
      ensures InverseAccepted(EntriesOf(cfg[m].group, us))
      ensures Undoes(EntriesOf(cfg[m].group, us), cfg[m]) <==> !DropsAt(cfg, m)
      ensures cfg[m].group in GroupsOf(us) <==> !AsksForNothing(cfg[m])
    {
      var g := cfg[m];
      assert g in cfg;
      DropsNeedRP(cfg, m);
      PrunedIsAccepted(EntriesOf(g.group, us), g, g.rpt.Some? && !DropsAt(cfg, m));
      PrunesFlags(g, g.rpt.Some? && !DropsAt(cfg, m));
      GroupsOfEntries(g.group, us);
    }
    forall a | a in GroupsOf(us)
      ensures a in GroupSet(cfg)
    {
      GroupsOfEntries(a, us);
    }
  }

  // ---- The start ----

  datatype Ready = Ready(updates: seq<Update>, inverseUpdates: seq<Update>)

  // The start fails, where the source throws, exactly when a group asks for
  // nothing or an RP prune is lost, which counting sources can tell beforehand.
  method Build(cfg: JPConfig) returns (r: Option<Ready>)
    requires Loaded(cfg)
    ensures r.Some? <==>
            && (forall g :: g in cfg ==> !AsksForNothing(g))
            && (forall m :: 0 <= m < |cfg| ==> !Overflows(Demands(cfg), m))
    ensures r.Some? ==> r.value == Ready(Packed(cfg), InversePacked(cfg))
  {
    hide Verified, InverseVerified, Packed, InversePacked, DropsAt;
    forall m | 0 <= m < |cfg|
      ensures DropsAt(cfg, m) <==> Overflows(Demands(cfg), m)
    {
      DropsExactly(cfg, m);
    }
    var updates := Packer.Pack(cfg);
    PackedVerifies(cfg);
    var ok := VerifyUpdates(cfg, updates);
    if !ok {
      return None;
    }
    var inverseUpdates := InversePacker.InversePack(cfg);
    InverseVerifies(cfg);
    ok := VerifyInverseUpdates(cfg, inverseUpdates);
    if !ok {
      return None;
    }
    return Some(Ready(updates, inverseUpdates));
  }

  // ---- From the loader's input ----

  datatype Start = LoadFails | Throws | Starts(cfg: JPConfig, ready: Ready)

  function RawDemands(raw: seq<RawGroup>): seq<Demand> {
    seq(|raw|, i requires 0 <= i < |raw| => Demand(raw[i].rpt.Some?, |RawSpt(raw[i])|))
  }

  // What pimc will start with, told from the input: it is valid, no group has but
  // an empty "Join", and counting the listed sources finds no lost RP prune.
  ghost predicate Startable(raw: seq<RawGroup>) {
    && (forall r :: r in raw ==> !EmptyJoin(r))
    && (forall m :: 0 <= m < |raw| ==> !Overflows(RawDemands(raw), m))
  }

  lemma StartableIffBuilds(raw: seq<RawGroup>, cfg: JPConfig)
    requires LoadsAs(raw, cfg)
    ensures Loaded(cfg)
    ensures Startable(raw) <==>
            && (forall g :: g in cfg ==> !AsksForNothing(g))
            && (forall m :: 0 <= m < |cfg| ==> !Overflows(Demands(cfg), m))
  {
    LoadedFromRaw(cfg, raw);
    assert RawDemands(raw) == Demands(cfg) by {
      assert forall i :: 0 <= i < |raw| ==> Reads(cfg[i], raw[i]);
    }
  }

  // The inverse updates list each configured source and RP once, and nothing else,
  // exactly if no RP prune is lost and no group asks for nothing.
  lemma InversePackedExact(cfg: JPConfig)
    requires Loaded(cfg)
    ensures InverseExact(cfg, InversePacked(cfg)) <==>
            && (forall g :: g in cfg ==> !AsksForNothing(g))
            && (forall m :: 0 <= m < |cfg| ==> !DropsAt(cfg, m))
  {
    hide InverseVerified, InverseExact, InversePacked, GroupLoaded, DropsAt;
    InverseVerifies(cfg);
    InverseVerifiedIffExact(cfg, InversePacked(cfg));
  }

  // What pimc starts with is what both packings are exact for.
  lemma StartableIffExact(raw: seq<RawGroup>, cfg: JPConfig)
    requires LoadsAs(raw, cfg)
    ensures Startable(raw) <==> Exact(cfg, Packed(cfg)) && InverseExact(cfg, InversePacked(cfg))
  {
    hide Startable, Exact, InverseExact, Packed, InversePacked, GroupLoaded, DropsAt, Overflows, LoadsAs;
    StartableIffBuilds(raw, cfg);
    PackedExact(cfg);
    InversePackedExact(cfg);
    forall m | 0 <= m < |cfg|
      ensures DropsAt(cfg, m) <==> Overflows(Demands(cfg), m)
    {
      DropsExactly(cfg, m);
    }
  }

  // The J/P part of loading a configuration; the other parts are given as loaded.
  method LoadAndBuild(raw: seq<RawGroup>) returns (r: Start)
    ensures r.LoadFails? <==> !RawValid(raw)
    ensures r.Throws? <==> RawValid(raw) && !Startable(raw)
    ensures r.Starts? ==> LoadsAs(raw, r.cfg) && r.ready == Ready(Packed(r.cfg), InversePacked(r.cfg))
  {
    hide Startable, Packed, InversePacked, Demands;
    var jpConfig := LoadJPConfig(raw);
    if jpConfig.None? {
      return LoadFails;
    }
    var cfg := jpConfig.value;
    StartableIffBuilds(raw, cfg);
    var ready := Build(cfg);
    return if ready.None? then Throws else Starts(cfg, ready.value);
  }

  // An input that loads and with which pimc refuses to start, although every group
  // asks for something and the packed updates pass their check: 232.0.0.1 with 179
  // sources before 232.0.0.2 with an RP and a source.
  function RefusedSources(): seq<Address> {
    seq(179, i requires 0 <= i < 179 => 0x0a00_0001 + i)
  }

  function RefusedInput(): seq<RawGroup> {
    [RawGroup(Some(0xe800_0001), None, Some(seq(179, i requires 0 <= i < 179 => Some(RefusedSources()[i])))),
     RawGroup(Some(0xe800_0002), Some(RawRPT(Some(0x0a01_0001), [])), Some([Some(0x0a01_0002)]))]
  }

  function RefusedConfig(): JPConfig {
    [GroupConfig(0xe800_0001, None, RefusedSources()),
     GroupConfig(0xe800_0002, Some(RPT(0x0a01_0001, [])), [0x0a01_0002])]
  }

  lemma StartRefused()
    ensures LoadsAs(RefusedInput(), RefusedConfig()) && !Startable(RefusedInput())
    ensures forall cfg :: LoadsAs(RefusedInput(), cfg) ==>
              Verified(cfg, Packed(cfg)) && !InverseVerified(cfg, InversePacked(cfg))
  {
    RefusedLoads();
    RefusedDrops();
    hide *;
    var raw, refused := RefusedInput(), RefusedConfig();
    StartableIffBuilds(raw, refused);
    PackedVerifies(refused);
    InverseVerifies(refused);
    forall cfg | LoadsAs(raw, cfg)
      ensures cfg == refused
    {
      LoadsAsOne(raw, cfg, refused);
    }
  }

  lemma RefusedDrops()
    ensures forall g :: g in RefusedConfig() ==> !AsksForNothing(g)
    ensures |RefusedConfig()| == 2 && DropsAt(RefusedConfig(), 1) && Overflows(Demands(RefusedConfig()), 1)
  {
    var cfg := RefusedConfig();
    hide Demands, Overflows, DropsAt;
    DropWitness(cfg[0], cfg[1]);
    DropsExactly(cfg, 1);
  }

  lemma RefusedLoads()
    ensures LoadsAs(RefusedInput(), RefusedConfig())
  {
    SourcesLoad(0xe800_0001, RefusedSources());
    RPLoads();
    hide GroupValid, Reads, RefusedSources;
  }

  // A group that lists sources in ascending order loads as it is.
  lemma SourcesLoad(a: Address, srcs: seq<Address>)
    requires Ascending(srcs) && forall i :: 0 <= i < |srcs| ==> UcAddr(Some(srcs[i])).Some?
    ensures var r := RawGroup(Some(a), None, Some(seq(|srcs|, i requires 0 <= i < |srcs| => Some(srcs[i]))));
            GroupValid(r) && Reads(GroupConfig(a, None, srcs), r)
  {
    hide UcAddr;
    var spt := seq(|srcs|, i requires 0 <= i < |srcs| => Some(srcs[i]));
    assert forall i :: 0 <= i < |srcs| ==> spt[i] == Some(srcs[i]);
    assert [] + [] + spt == spt;
  }

  lemma RPLoads()
    ensures GroupValid(RefusedInput()[1]) && Reads(RefusedConfig()[1], RefusedInput()[1])
  {
    assert [Some(0x0a01_0001)] + [] + [Some(0x0a01_0002)] == [Some(0x0a01_0001), Some(0x0a01_0002)];
  }
}
