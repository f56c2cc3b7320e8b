// Conservation: what the packed updates carry is what was configured, each
// source once and in order, and each RPT block whole in a single entry.
module Conservation {
  import opened JoinPrune
  import opened FirstFit
  import opened PackTheorems

  // ---- Entries ----

  ghost predicate HasBlock(e: GroupEntry) {
    Addresses(e.joins, true) != []
  }

  // Entry e is a chunk of group g: some (S,G) joins and nothing else, or any
  // number of them and the whole RPT block.
  ghost predicate IsChunk(e: GroupEntry, g: GroupConfig) {
    && (HasBlock(e) ==> g.rpt.Some?)
    && e.joins != []
    && (forall s :: s in Addresses(e.joins, false) ==> s in g.spt)
    && e == ChunkEntry(g, Addresses(e.joins, false), HasBlock(e))
  }

  function RptPrunesOf(g: GroupConfig, block: bool): seq<Address> {
    if block && g.rpt.Some? then g.rpt.value.prunes else []
  }

  function RpOf(g: GroupConfig, block: bool): seq<Address> {
    if block && g.rpt.Some? then [g.rpt.value.rp] else []
  }

  lemma {:induction false} SptSourcesAddresses(srcs: seq<Address>)
    ensures Addresses(SptSources(srcs), false) == srcs
    ensures Addresses(SptSources(srcs), true) == []
  {
    if srcs != [] {
      var n := |srcs| - 1;
      SptSourcesAddresses(srcs[..n]);
      assert SptSources(srcs)[..n] == SptSources(srcs[..n]);
    }
  }

  lemma {:induction false} RptPrunesAddresses(srcs: seq<Address>)
    ensures Addresses(RptPrunes(srcs), false) == srcs
    ensures Addresses(RptPrunes(srcs), true) == []
  {
    if srcs != [] {
      var n := |srcs| - 1;
      RptPrunesAddresses(srcs[..n]);
      assert RptPrunes(srcs)[..n] == RptPrunes(srcs[..n]);
    }
  }

  lemma ChunkAddresses(g: GroupConfig, srcs: seq<Address>, block: bool)
    requires block ==> g.rpt.Some?
    ensures var e := ChunkEntry(g, srcs, block);
            && Addresses(e.joins, false) == srcs && Addresses(e.joins, true) == RpOf(g, block)
            && Addresses(e.prunes, false) == RptPrunesOf(g, block) && Addresses(e.prunes, true) == []
  {
    SptSourcesAddresses(srcs);
    if block {
      hide Addresses, SptSources, RptPrunes;
      var rp := Source(g.rpt.value.rp, true, true);
      AddressesAppend(SptSources(srcs), rp, false);
      AddressesAppend(SptSources(srcs), rp, true);
      assert srcs + [] == srcs;
      RptPrunesAddresses(g.rpt.value.prunes);
    }
  }

  lemma ChunkViews(g: GroupConfig, srcs: seq<Address>, block: bool)
    requires block ==> g.rpt.Some?
    requires block || srcs != []
    requires forall s :: s in srcs ==> s in g.spt
    ensures var e := ChunkEntry(g, srcs, block);
            && IsChunk(e, g) && HasBlock(e) == block
            && JoinedSources([e]) == srcs && JoinedRPs([e]) == RpOf(g, block)
            && PrunedSources([e]) == RptPrunesOf(g, block) && PrunedRPs([e]) == []
  {
    var e := ChunkEntry(g, srcs, block);
    hide Addresses, Listed, RptPrunes;
    ChunkAddresses(g, srcs, block);
    ListedOne(e, false, false);
    ListedOne(e, false, true);
    ListedOne(e, true, false);
    ListedOne(e, true, true);
  }

  // The entries es carry the sources of g before srci, in order, and its RPT
  // block, in one entry, exactly when block is set.
  ghost predicate Carries(es: seq<GroupEntry>, g: GroupConfig, srci: nat, block: bool)
    requires srci <= |g.spt|
  {
    && (forall e :: e in es ==> IsChunk(e, g))
    && JoinedSources(es) == g.spt[..srci]
    && JoinedRPs(es) == RpOf(g, block)
    && PrunedSources(es) == RptPrunesOf(g, block)
    && PrunedRPs(es) == []
  }

  // At most one of the two flags is set, so at most one block is there to list.
  lemma BlockOnce(g: GroupConfig, before: bool, block: bool)
    requires !(before && block)
    ensures RpOf(g, before) + RpOf(g, block) == RpOf(g, before || block)
    ensures RptPrunesOf(g, before) + RptPrunesOf(g, block) == RptPrunesOf(g, before || block)
  {
  }

  lemma SliceMore<T>(s: seq<T>, i: nat, n: nat)
    requires i + n <= |s|
    ensures s[..i] + s[i..i + n] == s[..i + n]
  {
  }

  lemma CarriesMore(es: seq<GroupEntry>, g: GroupConfig, srci: nat, n: nat, before: bool, block: bool)
    requires srci + n <= |g.spt| && Carries(es, g, srci, before)
    requires block ==> g.rpt.Some? && !before
    requires n > 0 || block
    ensures Carries(es + [ChunkEntry(g, g.spt[srci..srci + n], block)], g, srci + n, before || block)
  {
    hide ChunkEntry, IsChunk, Listed, HasBlock, RpOf, RptPrunesOf;
    var srcs := g.spt[srci..srci + n];
    var e := ChunkEntry(g, srcs, block);
    assert forall s :: s in srcs ==> s in g.spt;
    ChunkViews(g, srcs, block);
    ListedAppend(es, [e], false, false);
    ListedAppend(es, [e], false, true);
    ListedAppend(es, [e], true, false);
    ListedAppend(es, [e], true, true);
    SliceMore(g.spt, srci, n);
    BlockOnce(g, before, block);
  }

  // ---- Entries in a list of updates ----

  lemma EntriesSplit(a: Address, q: seq<Update>, k: nat)
    requires k < |q|
    ensures EntriesOf(a, q) == EntriesOf(a, q[..k]) + EntriesIn(a, q[k]) + EntriesOf(a, q[k + 1..])
  {
    EntriesOfAppend(a, q[..k], q[k..]);
    assert q == q[..k] + q[k..];
    assert q[k..][0] == q[k] && q[k..][1..] == q[k + 1..];
  }

  lemma {:induction false} NoEntries(a: Address, q: seq<Update>)
    requires AbsentFrom(a, q, 0)
    ensures EntriesOf(a, q) == []
  {
    if q != [] {
      NoEntries(a, q[1..]);
    }
  }

  lemma PutSplit(q: seq<Update>, k: nat, e: GroupEntry)
    requires k <= |q|
    ensures k < |Put(q, k, e)|
    ensures Put(q, k, e)[..k] == q[..k] && Put(q, k, e)[k] == At(q, k) + [e]
    ensures Put(q, k, e)[k + 1..] == if k < |q| then q[k + 1..] else []
  {
    assert [] + [e] == [e];
  }

  // Serving position k leaves the other groups alone and adds the entry at the
  // end of its own group's entries.
  lemma EntriesPut(a: Address, q: seq<Update>, k: nat, e: GroupEntry)
    requires k <= |q|
    requires e.group == a ==> AbsentFrom(a, q, k)
    ensures EntriesOf(a, Put(q, k, e)) == EntriesOf(a, q) + (if e.group == a then [e] else [])
  {
    assert EntriesIn(a, []) == [] && EntriesOf(a, []) == [];
    hide EntriesOf, EntriesIn, Put;
    EntriesInAppend(a, At(q, k), e);
    PutSplit(q, k, e);
    EntriesSplit(a, Put(q, k, e), k);
    if k < |q| {
      EntriesSplit(a, q, k);
      if e.group == a {
        NoEntries(a, q[k + 1..]);
      }
    } else {
      assert q[..k] == q;
    }
  }

  // ---- The scan ----

  ghost predicate CarryState(q: seq<Update>, k: nat, g: GroupConfig, srci: nat, home: int) {
    && k <= |q| && srci <= |g.spt| && HomeOk(q, g, home)
    && AbsentFrom(g.group, q, k)
    && Carries(EntriesOf(g.group, q), g, srci, 0 <= home < k)
  }

  lemma CarryStep(q: seq<Update>, k: nat, g: GroupConfig, srci: nat, home: int, n: nat, q': seq<Update>)
    requires CarryState(q, k, g, srci, home)
    requires Step(q, k, g, srci, home, n, q') && srci + n <= |g.spt| && HomeOk(q', g, home) && k < |q'|
    ensures CarryState(q', k + 1, g, srci + n, home)
    ensures forall a :: a != g.group ==> EntriesOf(a, q') == EntriesOf(a, q)
  {
    hide Carries, Used, Share, EntriesOf, EntriesIn;
    if n > 0 || home == k {
      var e := ChunkEntry(g, g.spt[srci..srci + n], home == k);
      forall a: Address | a != g.group
        ensures EntriesOf(a, q') == EntriesOf(a, q)
      {
        EntriesPut(a, q, k, e);
      }
      EntriesPut(g.group, q, k, e);
      PutAt(q, k, e);
      CarriesMore(EntriesOf(g.group, q), g, srci, n, 0 <= home < k, home == k);
    }
  }

  lemma {:induction false} SpreadCarries(q: seq<Update>, k: nat, g: GroupConfig, srci: nat, home: int)
    requires CarryState(q, k, g, srci, home)
    ensures Carries(EntriesOf(g.group, Spread(q, k, g, srci, home)), g, |g.spt|, home >= 0)
    ensures forall a :: a != g.group ==> EntriesOf(a, Spread(q, k, g, srci, home)) == EntriesOf(a, q)
    decreases |g.spt| - srci + (if home >= k then 1 else 0), |q| - k
  {
    hide Carries, Used, EntriesOf, ChunkEntry;
    if srci < |g.spt| || home >= k {
      hide Spread, Step;
      var n, q' := NextStep(q, k, g, srci, home);
      SpreadStep(q, k, g, srci, home, n, q');
      CarryStep(q, k, g, srci, home, n, q');
      SpreadCarries(q', k + 1, g, srci + n, home);
    }
  }

  // ---- Whole configurations ----

  ghost function GroupSet(cfg: JPConfig): set<Address> {
    set g | g in cfg :: g.group
  }

  lemma {:induction false} AbsentIffNone(a: Address, q: seq<Update>)
    ensures AbsentFrom(a, q, 0) <==> EntriesOf(a, q) == []
  {
    if q != [] {
      AbsentIffNone(a, q[1..]);
      assert AbsentFrom(a, q, 0) <==> EntriesIn(a, q[0]) == [] && AbsentFrom(a, q[1..], 0) by {
        assert forall i :: 0 < i < |q| ==> q[i] == q[1..][i - 1];
      }
    }
  }

  lemma FitGroupCarries(q: seq<Update>, g: GroupConfig)
    requires EntriesOf(g.group, q) == []
    ensures Carries(EntriesOf(g.group, FitGroup(q, g)), g, |g.spt|, g.rpt.Some?)
    ensures forall a :: a != g.group ==> EntriesOf(a, FitGroup(q, g)) == EntriesOf(a, q)
  {
    AbsentIffNone(g.group, q);
    SpreadCarries(q, 0, g, 0, Home(q, g));
  }

  lemma {:induction false} PackFromCarries(q: seq<Update>, cfg: JPConfig)
    requires DistinctGroups(cfg)
    requires forall g :: g in cfg ==> EntriesOf(g.group, q) == []
    ensures forall g :: g in cfg ==> Carries(EntriesOf(g.group, PackFrom(q, cfg)), g, |g.spt|, g.rpt.Some?)
    ensures forall a :: a !in GroupSet(cfg) ==> EntriesOf(a, PackFrom(q, cfg)) == EntriesOf(a, q)
    decreases |cfg|
  {
    hide Carries, EntriesOf, FitGroup;
    if cfg != [] {
      var g, rest := cfg[0], cfg[1..];
      assert forall i :: 0 <= i < |rest| ==> rest[i] == cfg[i + 1];
      assert forall h :: h in rest ==> h.group != g.group;
      FitGroupCarries(q, g);
      PackFromCarries(FitGroup(q, g), rest);
      assert cfg == [g] + rest;
      assert GroupSet(cfg) == {g.group} + GroupSet(rest);
    }
  }

  // Conservation.  Over the updates in order, each group joins exactly its SPT
  // sources, in order; its RPT block, if it has one, is carried once and whole;
  // and no other group appears.
  lemma PackedCarries(cfg: JPConfig)
    requires DistinctGroups(cfg)
    ensures forall g :: g in cfg ==> Carries(EntriesOf(g.group, Packed(cfg)), g, |g.spt|, g.rpt.Some?)
    ensures forall a :: a !in GroupSet(cfg) ==> EntriesOf(a, Packed(cfg)) == []
  {
    PackFromCarries([], cfg);
  }

  // Every entry is a chunk of a configured group.
  ghost predicate Chunks(u: Update, cfg: JPConfig) {
    forall e :: e in u ==> exists g :: g in cfg && IsChunk(e, g)
  }

  lemma PackedChunks(cfg: JPConfig)
    requires DistinctGroups(cfg)
    ensures forall u :: u in Packed(cfg) ==> Chunks(u, cfg)
  {
    PackedCarries(cfg);
    forall u, e | u in Packed(cfg) && e in u
      ensures exists g :: g in cfg && IsChunk(e, g)
    {
      EntriesOfMember(e.group, Packed(cfg), e);
      assert e.group in GroupSet(cfg);
    }
  }

  // The entry has something of an RPT block.
  ghost predicate PartOfBlock(e: GroupEntry) {
    e.prunes != [] || exists s :: s in e.joins && s.wildcard
  }

  // Atomicity.  A packed entry with part of an RPT block has all of it, and no other
  // packed entry of its group has any of it.
  lemma BlockIsAtomic(cfg: JPConfig, g: GroupConfig, e: GroupEntry)
    requires DistinctGroups(cfg) && g in cfg
    requires e in EntriesOf(g.group, Packed(cfg)) && PartOfBlock(e)
    ensures g.rpt.Some?
    ensures Source(g.rpt.value.rp, true, true) in e.joins
    ensures e.prunes == RptPrunes(g.rpt.value.prunes)
    ensures multiset(EntriesOf(g.group, Packed(cfg)))[e] == 1
    ensures forall f :: f in EntriesOf(g.group, Packed(cfg)) && f != e ==> !PartOfBlock(f)
  {
    PackedCarries(cfg);
    var es := EntriesOf(g.group, Packed(cfg));
    assert |JoinedRPs(es)| <= 1 && forall f :: f in es ==> IsChunk(f, g);
    hide *;
    BlockOfChunk(e, g);
    BlockOnlyIn(es, e);
    forall f | f in es && f != e && PartOfBlock(f)
      ensures false
    {
      BlockOfChunk(f, g);
    }
  }

  lemma BlockOfChunk(e: GroupEntry, g: GroupConfig)
    requires IsChunk(e, g) && PartOfBlock(e)
    ensures g.rpt.Some? && HasBlock(e)
    ensures Source(g.rpt.value.rp, true, true) in e.joins
    ensures e.prunes == RptPrunes(g.rpt.value.prunes)
  {
  }

  // If only one RP is joined over all entries, only one of them has a block.
  lemma {:induction false} BlockOnlyIn(es: seq<GroupEntry>, e: GroupEntry)
    requires e in es && HasBlock(e) && |JoinedRPs(es)| <= 1
    ensures multiset(es)[e] == 1
    ensures forall f :: f in es && f != e ==> !HasBlock(f)
  {
    var rest := es[1..];
    assert es == [es[0]] + rest;
    if e in rest {
      BlockOnlyIn(rest, e);
      BlockListed(rest, e);
    } else {
      forall f | f in rest && HasBlock(f)
        ensures false
      {
        BlockListed(rest, f);
      }
    }
  }

  lemma {:induction false} BlockListed(es: seq<GroupEntry>, e: GroupEntry)
    requires e in es && HasBlock(e)
    ensures JoinedRPs(es) != []
  {
    if e != es[0] {
      BlockListed(es[1..], e);
    }
  }

  // The groups that appear are those that ask for something.
  lemma PackedGroups(cfg: JPConfig)
    requires DistinctGroups(cfg)
    ensures forall g :: g in cfg ==> (g.group in GroupsOf(Packed(cfg)) <==> !AsksForNothing(g))
    ensures GroupsOf(Packed(cfg)) <= GroupSet(cfg)
  {
    PackedCarries(cfg);
    forall g | g in cfg
      ensures g.group in GroupsOf(Packed(cfg)) <==> !AsksForNothing(g)
    {
      var es := EntriesOf(g.group, Packed(cfg));
      GroupsOfEntries(g.group, Packed(cfg));
      CarriesNothing(es, g);
    }
    forall a | a !in GroupSet(cfg)
      ensures a !in GroupsOf(Packed(cfg))
    {
      GroupsOfEntries(a, Packed(cfg));
    }
  }

  lemma CarriesNothing(es: seq<GroupEntry>, g: GroupConfig)
    requires Carries(es, g, |g.spt|, g.rpt.Some?)
    ensures es == [] <==> AsksForNothing(g)
  {
    if es != [] && g.rpt.None? {
      assert IsChunk(es[0], g);
    }
  }

  // ---- Shape of an update ----

  // No two entries of one group, and every entry has a source.
  ghost predicate Shaped(u: Update) {
    && u != []
    && (forall i, j :: 0 <= i < j < |u| ==> u[i].group != u[j].group)
    && (forall i :: 0 <= i < |u| ==> EntrySize(u[i]) >= MIN_ENTRY_SIZE)
  }

  ghost predicate AllShaped(q: seq<Update>) {
    forall i :: 0 <= i < |q| ==> Shaped(q[i])
  }

  lemma ShapedAppend(u: Update, e: GroupEntry)
    requires u == [] || Shaped(u)
    requires EntriesIn(e.group, u) == [] && EntrySize(e) >= MIN_ENTRY_SIZE
    ensures Shaped(u + [e])
  {
    forall i | 0 <= i < |u|
      ensures u[i].group != e.group
    {
      EntriesInMember(e.group, u, u[i]);
    }
  }

  lemma ShapedStep(q: seq<Update>, k: nat, g: GroupConfig, srci: nat, home: int, n: nat, q': seq<Update>)
    requires k <= |q| && srci <= |g.spt| && HomeOk(q, g, home)
    requires Step(q, k, g, srci, home, n, q')
    requires AllShaped(q) && AbsentFrom(g.group, q, k)
    ensures AllShaped(q') && AbsentFrom(g.group, q', k + 1)
  {
    hide Used, EntriesIn, ChunkEntry, EntrySize, Shaped;
    if n > 0 || home == k {
      var e := ChunkEntry(g, g.spt[srci..srci + n], home == k);
      assert e.group == g.group by { ChunkGroup(g, g.spt[srci..srci + n], home == k); }
      ChunkSize(g, g.spt[srci..srci + n], home == k);
      assert EntriesIn(g.group, At(q, k)) == [] by { EntriesInNone(g.group); }
      ShapedAppend(At(q, k), e);
      PutAt(q, k, e);
      assert forall i :: 0 <= i < |q'| ==> q'[i] == At(q', i);
    }
  }

  lemma {:induction false} SpreadShaped(q: seq<Update>, k: nat, g: GroupConfig, srci: nat, home: int)
    requires k <= |q| && srci <= |g.spt| && HomeOk(q, g, home)
    requires AllShaped(q) && AbsentFrom(g.group, q, k)
    ensures AllShaped(Spread(q, k, g, srci, home))
    decreases |g.spt| - srci + (if home >= k then 1 else 0), |q| - k
  {
    hide EntriesIn, Shaped;
    if srci < |g.spt| || home >= k {
      hide Used, Spread, Step;
      var n, q' := NextStep(q, k, g, srci, home);
      SpreadStep(q, k, g, srci, home, n, q');
      ShapedStep(q, k, g, srci, home, n, q');
      SpreadShaped(q', k + 1, g, srci + n, home);
    }
  }

  lemma ChunkGroup(g: GroupConfig, srcs: seq<Address>, block: bool)
    requires block ==> g.rpt.Some?
    ensures ChunkEntry(g, srcs, block).group == g.group
  {
  }

  lemma EntriesInNone(a: Address)
    ensures EntriesIn(a, []) == []
  {
  }

  lemma {:induction false} PackFromShaped(q: seq<Update>, cfg: JPConfig)
    requires DistinctGroups(cfg) && AllShaped(q)
    requires forall g :: g in cfg ==> EntriesOf(g.group, q) == []
    ensures AllShaped(PackFrom(q, cfg))
    decreases |cfg|
  {
    hide AllShaped, EntriesOf, Carries;
    if cfg != [] {
      var g, rest := cfg[0], cfg[1..];
      assert forall i :: 0 <= i < |rest| ==> rest[i] == cfg[i + 1];
      AbsentIffNone(g.group, q);
      SpreadShaped(q, 0, g, 0, Home(q, g));
      FitGroupCarries(q, g);
      PackFromShaped(FitGroup(q, g), rest);
    }
  }

  lemma {:induction false} ShapedCount(u: Update)
    requires forall i :: 0 <= i < |u| ==> EntrySize(u[i]) >= MIN_ENTRY_SIZE
    ensures |u| * MIN_ENTRY_SIZE <= Used(u)
  {
    if u != [] {
      ShapedCount(u[..|u| - 1]);
    }
  }

  // No update is empty, exceeds its capacity, names a group twice, or has more
  // than 73 entries.
  lemma PackedShape(cfg: JPConfig)
    requires DistinctGroups(cfg)
    requires forall g :: g in cfg ==> PrunesBounded(g)
    ensures AllShaped(Packed(cfg)) && AllFit(Packed(cfg))
    ensures forall u :: u in Packed(cfg) ==> |u| <= 73
  {
    PackFromShaped([], cfg);
    PackedDense(cfg);
    forall u | u in Packed(cfg)
      ensures |u| <= 73
    {
      assert Shaped(u) && Fits(u);
      ShapedCount(u);
    }
  }
}
