// The loader of the multicast configuration, from the parsed YAML lists.  Text
// that is no address, or none at all, is None; any error makes the load fail.
module Loader {
  import opened JoinPrune

  datatype RawRPT = RawRPT(rp: Option<Address>, prunes: seq<Option<Address>>)

  // A group with its "Join*" and "Join" entries.
  datatype RawGroup = RawGroup(group: Option<Address>, rpt: Option<RawRPT>, spt: Option<seq<Option<Address>>>)

  // ---- Addresses ----

  predicate Multicast(a: Address) {
    a / 0x1000_0000 == 14
  }

  predicate Loopback(a: Address) {
    a / 0x100_0000 == 127
  }

  // A group must be multicast.
  function GrpAddr(x: Option<Address>): (r: Option<Address>)
    ensures r.Some? <==> x.Some? && 0xe000_0000 <= x.value <= 0xefff_ffff
    ensures r.Some? ==> r == x
  {
    if x.Some? && Multicast(x.value) then x else None
  }

  // A source or an RP must not be, nor be the default, broadcast or loopback address.
  function UcAddr(x: Option<Address>): (r: Option<Address>)
    ensures r.Some? <==>
              && x.Some? && x.value != 0 && x.value != 0xffff_ffff
              && !(0x7f00_0000 <= x.value <= 0x7fff_ffff) && !(0xe000_0000 <= x.value <= 0xefff_ffff)
    ensures r.Some? ==> r == x
  {
    if x.None? || x.value == 0 || x.value == 0xffff_ffff || Loopback(x.value) || Multicast(x.value) then None else x
  }

  // ---- What the loader accepts ----

  function RawRP(r: RawGroup): seq<Option<Address>> {
    if r.rpt.Some? then [r.rpt.value.rp] else []
  }

  function RawPrunes(r: RawGroup): seq<Option<Address>> {
    if r.rpt.Some? then r.rpt.value.prunes else []
  }

  function RawSpt(r: RawGroup): seq<Option<Address>> {
    if r.spt.Some? then r.spt.value else []
  }

  // The sources of a group, of all three roles together, are unicast and distinct.
  ghost predicate SourcesValid(rp: seq<Option<Address>>, prunes: seq<Option<Address>>, spt: seq<Option<Address>>) {
    && (forall x :: x in rp + prunes + spt ==> UcAddr(x).Some?)
    && NoDuplicates(rp + prunes + spt)
    && |prunes| <= MAX_PRUNE_SG_RPT
  }

  ghost predicate GroupValid(r: RawGroup) {
    (r.rpt.Some? || r.spt.Some?) && SourcesValid(RawRP(r), RawPrunes(r), RawSpt(r))
  }

  ghost predicate RawValid(raw: seq<RawGroup>) {
    && raw != []
    && (forall i :: 0 <= i < |raw| ==> GrpAddr(raw[i].group).Some? && GroupValid(raw[i]))
    && (forall i, j :: 0 <= i < j < |raw| ==> raw[i].group != raw[j].group)
  }

  // ---- What it makes of it ----

  ghost predicate Ascending(s: seq<Address>) {
    forall i, j :: 0 <= i < j < |s| ==> s[i] < s[j]
  }

  ghost predicate SortedFrom(s: seq<Address>, raw: seq<Option<Address>>) {
    Ascending(s) && forall x: Address :: x in s <==> Some(x) in raw
  }

  // The configuration of a group is what was read, with its sources sorted.
  ghost predicate Reads(g: GroupConfig, r: RawGroup) {
    && r.group == Some(g.group)
    && (g.rpt.Some? <==> r.rpt.Some?)
    && (g.rpt.Some? ==>
          Some(g.rpt.value.rp) == r.rpt.value.rp && SortedFrom(g.rpt.value.prunes, r.rpt.value.prunes))
    && SortedFrom(g.spt, RawSpt(r))
  }

  // The input is valid, and the configuration is what was read, group by group.
  ghost predicate LoadsAs(raw: seq<RawGroup>, cfg: JPConfig) {
    && RawValid(raw) && |cfg| == |raw|
    && forall i :: 0 <= i < |raw| ==> Reads(cfg[i], raw[i])
  }

  // ---- One more source ----

  lemma OneMorePrune(rp: seq<Option<Address>>, prunes: seq<Option<Address>>, x: Option<Address>)
    ensures SourcesValid(rp, prunes + [x], []) <==>
              SourcesValid(rp, prunes, []) && UcAddr(x).Some? && x !in rp + prunes && |prunes| < MAX_PRUNE_SG_RPT
  {
    assert rp + prunes + [] == rp + prunes;
    assert rp + (prunes + [x]) + [] == (rp + prunes) + [x];
    NoDuplicatesAppend(rp + prunes, x);
    assert forall y :: y in (rp + prunes) + [x] <==> y in rp + prunes || y == x;
  }

  lemma OneMoreJoin(rp: seq<Option<Address>>, prunes: seq<Option<Address>>, spt: seq<Option<Address>>,
                    x: Option<Address>)
    ensures SourcesValid(rp, prunes, spt + [x]) <==>
              SourcesValid(rp, prunes, spt) && UcAddr(x).Some? && x !in rp + prunes + spt
  {
    assert rp + prunes + (spt + [x]) == (rp + prunes + spt) + [x];
    NoDuplicatesAppend(rp + prunes + spt, x);
    assert forall y :: y in (rp + prunes + spt) + [x] <==> y in rp + prunes + spt || y == x;
  }

  // ---- One group ----

  ghost predicate Holds(s: set<Address>, raw: seq<Option<Address>>) {
    forall x: Address :: x in s <==> Some(x) in raw
  }

  class GroupConfigBuilder {
    const group: Address
    var sources: set<Address>
    var rptPrunedSources: nat
    var rp: Option<Address>
    var rptPruned: set<Address>
    var sgJoined: set<Address>
    var failed: bool

    constructor (group: Address)
      ensures this.group == group && Read([], [], [])
    {
      this.group := group;
      sources, rptPruned, sgJoined := {}, {}, {};
      rptPrunedSources, rp, failed := 0, None, false;
    }

    // The flag is set exactly when what was read so far is not valid; until then
    // the fields hold what was read.
    ghost predicate Read(rps: seq<Option<Address>>, prunes: seq<Option<Address>>, spt: seq<Option<Address>>)
      reads this
    {
      && (failed <==> !SourcesValid(rps, prunes, spt))
      && (!failed ==>
            && Holds(sources, rps + prunes + spt)
            && rps == (if rp.Some? then [rp] else [])
            && rptPrunedSources == |prunes| && Holds(rptPruned, prunes)
            && Holds(sgJoined, spt))
    }

    // The fields hold the valid group r.
    ghost predicate Has(r: RawGroup)
      reads this
    {
      r.group == Some(group) && !failed && Read(RawRP(r), RawPrunes(r), RawSpt(r))
    }

    method ChkSrc(src: Address) returns (ok: bool)
      modifies `sources, `failed
      ensures ok <==> src !in old(sources)
      ensures sources == old(sources) + {src}
      ensures failed <==> old(failed) || !ok
    {
      if src in sources {
        failed := true;
        return false;
      }
      sources := sources + {src};
      return true;
    }

    method LoadRP(x: Option<Address>)
      requires Read([], [], [])
      modifies this
      ensures Read([x], [], [])
    {
      assert [x] + [] + [] == [x];
      var src := UcAddr(x);
      if src.None? {
        failed := true;
        assert x in [x] + [] + [];
        return;
      }
      var ok := ChkSrc(src.value);
      if ok {
        rp := src;
      }
    }

    method LoadPrune(x: Option<Address>, ghost rps: seq<Option<Address>>, ghost prunes: seq<Option<Address>>)
      requires Read(rps, prunes, [])
      modifies this
      ensures Read(rps, prunes + [x], [])
    {
      OneMorePrune(rps, prunes, x);
      assert rps + prunes + [] == rps + prunes;
      hide SourcesValid;
      if UcAddr(x).None? {
        failed := true;
        return;
      }
      var src := UcAddr(x).value;
      var ok := ChkSrc(src);
      if !ok {
        return;
      }
      if rptPrunedSources >= MAX_PRUNE_SG_RPT {
        failed := true;
        return;
      }
      rptPrunedSources := rptPrunedSources + 1;
      rptPruned := rptPruned + {src};
    }

    method LoadJoin(x: Option<Address>, ghost rps: seq<Option<Address>>, ghost prunes: seq<Option<Address>>,
                    ghost spt: seq<Option<Address>>)
      requires Read(rps, prunes, spt)
      modifies this
      ensures Read(rps, prunes, spt + [x])
    {
      OneMoreJoin(rps, prunes, spt, x);
      hide SourcesValid;
      if UcAddr(x).None? {
        failed := true;
        return;
      }
      var src := UcAddr(x).value;
      var ok := ChkSrc(src);
      if !ok {
        return;
      }
      sgJoined := sgJoined + {src};
    }

    method LoadGroupConfig(r: RawGroup)
      requires Read([], [], [])
      modifies this
      ensures failed <==> !GroupValid(r)
      ensures !failed && r.group == Some(group) ==> Has(r)
    {
      hide SourcesValid;
      if r.rpt.Some? {
        LoadRP(r.rpt.value.rp);
        for i := 0 to |r.rpt.value.prunes|
          invariant Read(RawRP(r), r.rpt.value.prunes[..i], [])
        {
          assert r.rpt.value.prunes[..i + 1] == r.rpt.value.prunes[..i] + [r.rpt.value.prunes[i]];
          LoadPrune(r.rpt.value.prunes[i], RawRP(r), r.rpt.value.prunes[..i]);
        }
        assert r.rpt.value.prunes[..|r.rpt.value.prunes|] == r.rpt.value.prunes;
      }
      if r.spt.Some? {
        for i := 0 to |r.spt.value|
          invariant Read(RawRP(r), RawPrunes(r), r.spt.value[..i])
        {
          assert r.spt.value[..i + 1] == r.spt.value[..i] + [r.spt.value[i]];
          LoadJoin(r.spt.value[i], RawRP(r), RawPrunes(r), r.spt.value[..i]);
        }
        assert r.spt.value[..|r.spt.value|] == r.spt.value;
      }
      if r.rpt.None? && r.spt.None? {
        failed := true;
      }
    }

    method Build() returns (g: GroupConfig)
      ensures g.group == group
      ensures g.rpt.Some? <==> rp.Some?
      ensures g.rpt.Some? ==>
                && g.rpt.value.rp == rp.value
                && Ascending(g.rpt.value.prunes) && forall x :: x in g.rpt.value.prunes <==> x in rptPruned
      ensures Ascending(g.spt) && forall x :: x in g.spt <==> x in sgJoined
    {
      var rpt: Option<RPT> := None;
      if rp.Some? {
        var prunes := CopySorted(rptPruned);
        rpt := Some(RPT(rp.value, prunes));
      }
      var joins := CopySorted(sgJoined);
      return GroupConfig(group, rpt, joins);
    }
  }

  ghost predicate Least(m: Address, s: set<Address>) {
    m in s && forall y :: y in s ==> m <= y
  }

  // The elements of an ordered set, in order.
  method CopySorted(s: set<Address>) returns (v: seq<Address>)
    ensures Ascending(v) && forall x :: x in v <==> x in s
  {
    v := [];
    var todo := s;
    while todo != {}
      invariant todo <= s && Ascending(v)
      invariant forall x :: x in v <==> x in s && x !in todo
      invariant forall x, y :: x in v && y in todo ==> x < y
      decreases |todo|
    {
      var m := TakeLeast(todo);
      assert forall i :: 0 <= i < |v| ==> v[i] in v;
      v := v + [m];
      todo := todo - {m};
    }
  }

  method TakeLeast(s: set<Address>) returns (m: Address)
    requires s != {}
    ensures Least(m, s)
  {
    m :| m in s;
    var todo := s - {m};
    while todo != {}
      invariant todo <= s && m in s
      invariant forall y :: y in s && y !in todo ==> m <= y
      decreases |todo|
    {
      var x :| x in todo;
      todo := todo - {x};
      if x < m {
        m := x;
      }
    }
  }

  // ---- All groups ----

  // The builders hold the first n groups.
  ghost predicate Built(blds: map<Address, GroupConfigBuilder>, groups: seq<Address>, raw: seq<RawGroup>, n: nat)
    reads blds.Values
  {
    && |groups| == n <= |raw|
    && (forall i :: 0 <= i < n ==>
          groups[i] in blds && blds[groups[i]].Has(raw[i]) && raw[i].group == Some(groups[i]))
  }

  lemma ReadIsReads(g: GroupConfig, r: RawGroup, b: GroupConfigBuilder)
    requires g.group == b.group && b.Has(r)
    requires g.rpt.Some? <==> b.rp.Some?
    requires g.rpt.Some? ==>
               && g.rpt.value.rp == b.rp.value
               && Ascending(g.rpt.value.prunes) && forall x :: x in g.rpt.value.prunes <==> x in b.rptPruned
    requires Ascending(g.spt) && forall x :: x in g.spt <==> x in b.sgJoined
    ensures Reads(g, r)
  {
    hide SourcesValid;
    assert b.rp.Some? ==> RawRP(r)[0] == b.rp;
  }

  // The addresses of the first i groups.
  ghost predicate Addressed(addrs: set<Address>, raw: seq<RawGroup>, i: nat)
    requires i <= |raw|
  {
    forall a: Address :: a in addrs <==> exists j :: 0 <= j < i && GrpAddr(raw[j].group) == Some(a)
  }

  // The state after the first i groups: there is a builder for each group address
  // read so far, and no error iff they are all valid and distinct.
  ghost predicate Loading(raw: seq<RawGroup>, i: nat, failed: bool, groups: seq<Address>,
                          blds: map<Address, GroupConfigBuilder>)
    requires i <= |raw|
    reads blds.Values
  {
    && Addressed(blds.Keys, raw, i)
    && (failed <==> raw == [] || !ValidUpTo(raw, i))
    && (!failed ==> Built(blds, groups, raw, i))
  }

  lemma AddressedMore(addrs: set<Address>, raw: seq<RawGroup>, i: nat)
    requires i < |raw| && Addressed(addrs, raw, i)
    ensures var grp := GrpAddr(raw[i].group);
            Addressed(if grp.Some? then addrs + {grp.value} else addrs, raw, i + 1)
  {
    hide GrpAddr;
  }

  // One more group is valid if it is multicast, new and valid by itself.
  lemma ValidMore(addrs: set<Address>, raw: seq<RawGroup>, i: nat)
    requires i < |raw| && Addressed(addrs, raw, i)
    ensures ValidUpTo(raw, i + 1) <==>
              && ValidUpTo(raw, i) && GrpAddr(raw[i].group).Some? && GroupValid(raw[i])
              && GrpAddr(raw[i].group).value !in addrs
  {
    hide GroupValid;
  }

  lemma BuiltMore(blds: map<Address, GroupConfigBuilder>, groups: seq<Address>, raw: seq<RawGroup>, i: nat,
                  ga: Address, b: GroupConfigBuilder)
    requires i < |raw| && Built(blds, groups, raw, i)
    requires raw[i].group == Some(ga) && ga !in blds && b.Has(raw[i])
    ensures Built(blds[ga := b], groups + [ga], raw, i + 1)
  {
    hide GroupConfigBuilder.Has;
  }

  // Reads a group into its own builder.
  method LoadGroup(raw: seq<RawGroup>, i: nat, failed: bool, groups: seq<Address>,
                   blds: map<Address, GroupConfigBuilder>)
    returns (failed': bool, groups': seq<Address>, blds': map<Address, GroupConfigBuilder>)
    requires i < |raw| && Loading(raw, i, failed, groups, blds)
    ensures Loading(raw, i + 1, failed', groups', blds')
  {
    hide GroupValid, SourcesValid, ValidUpTo, Built, Addressed, RawRP, RawPrunes, RawSpt;
    AddressedMore(blds.Keys, raw, i);
    ValidMore(blds.Keys, raw, i);
    failed', groups', blds' := failed, groups, blds;
    var grp := GrpAddr(raw[i].group);
    if grp.None? {
      failed' := true;
    } else {
      var ga := grp.value;
      if ga !in blds {
        var b := new GroupConfigBuilder(ga);
        blds' := blds[ga := b];
        groups' := groups + [ga];
        b.LoadGroupConfig(raw[i]);
        failed' := failed || b.failed;
        assert blds'.Keys == blds.Keys + {ga};
        if !failed' {
          BuiltMore(blds, groups, raw, i, ga, b);
        }
      } else {
        failed' := true;
        assert blds.Keys == blds.Keys + {ga};
      }
    }
  }

  method LoadGroups(raw: seq<RawGroup>)
    returns (failed: bool, groups: seq<Address>, blds: map<Address, GroupConfigBuilder>)
    ensures failed <==> !RawValid(raw)
    ensures !failed ==> Built(blds, groups, raw, |raw|)
  {
    hide GroupValid;
    groups, blds, failed := [], map[], raw == [];
    for i := 0 to |raw|
      invariant Loading(raw, i, failed, groups, blds)
    {
      hide Loading;
      failed, groups, blds := LoadGroup(raw, i, failed, groups, blds);
    }
  }

  lemma BuiltLength(blds: map<Address, GroupConfigBuilder>, groups: seq<Address>, raw: seq<RawGroup>)
    requires Built(blds, groups, raw, |raw|)
    ensures |groups| == |raw|
  {
  }

  lemma BuiltAt(blds: map<Address, GroupConfigBuilder>, groups: seq<Address>, raw: seq<RawGroup>, i: nat)
    requires Built(blds, groups, raw, |raw|) && i < |raw|
    ensures i < |groups| && groups[i] in blds && blds[groups[i]].Has(raw[i])
  {
  }

  method BuildGroup(b: GroupConfigBuilder, ghost r: RawGroup) returns (g: GroupConfig)
    requires b.Has(r)
    ensures Reads(g, r)
  {
    g := b.Build();
    ReadIsReads(g, r, b);
  }

  // None is the failure result.
  method LoadJPConfig(raw: seq<RawGroup>) returns (r: Option<JPConfig>)
    ensures r.Some? <==> RawValid(raw)
    ensures r.Some? ==> LoadsAs(raw, r.value)
    ensures r.Some? <==> exists cfg :: Configurable(cfg) && Spells(raw, cfg)
    ensures r.Some? ==> Configurable(r.value) && Spells(raw, r.value)
  {
    forall cfg: JPConfig
      ensures LoadsAs(raw, cfg) <==> Configurable(cfg) && Spells(raw, cfg)
    {
      LoadsIffSpells(raw, cfg);
    }
    var failed, groups, blds := LoadGroups(raw);
    hide RawValid, Reads, SourcesValid, Built, Configurable, Spells;
    if failed {
      return None;
    }
    var cfg: JPConfig := [];
    assert |groups| == |raw| by { BuiltLength(blds, groups, raw); }
    for i := 0 to |groups|
      invariant |cfg| == i && forall j :: 0 <= j < i ==> Reads(cfg[j], raw[j])
      invariant Built(blds, groups, raw, |raw|)
    {
      BuiltAt(blds, groups, raw, i);
      var g := BuildGroup(blds[groups[i]], raw[i]);
      cfg := cfg + [g];
    }
    return Some(cfg);
  }

  ghost predicate ValidUpTo(raw: seq<RawGroup>, i: nat)
    requires i <= |raw|
  {
    && (forall k :: 0 <= k < i ==> GrpAddr(raw[k].group).Some? && GroupValid(raw[k]))
    && (forall j, k :: 0 <= j < k < i ==> raw[j].group != raw[k].group)
  }

  // ---- What the other components rely on ----

  lemma {:induction false} AscendingCount(s: seq<Address>, raw: seq<Option<Address>>)
    requires Ascending(s) && forall x :: x in s ==> Some(x) in raw
    ensures |s| <= |raw|
    decreases |s|
  {
    if s != [] {
      var n := |s| - 1;
      assert s[n] in s;
      var i :| 0 <= i < |raw| && raw[i] == Some(s[n]);
      var rest := raw[..i] + raw[i + 1..];
      forall x | x in s[..n]
        ensures Some(x) in rest
      {
        assert x in s;
        var j :| 0 <= j < |raw| && raw[j] == Some(x);
        assert rest[if j < i then j else j - 1] == Some(x);
      }
      AscendingCount(s[..n], rest);
    }
  }

  // Sorting a list without duplicates keeps its length.
  lemma {:induction false} SortedCount(s: seq<Address>, raw: seq<Option<Address>>)
    requires SortedFrom(s, raw) && NoDuplicates(raw) && forall x :: x in raw ==> x.Some?
    ensures |s| == |raw|
  {
    AscendingCount(s, raw);
    var a := seq(|raw|, i requires 0 <= i < |raw| => raw[i].value);
    assert forall i :: 0 <= i < |raw| ==> raw[i] in raw;
    DistinctCount(a, s);
  }

  lemma {:induction false} DistinctCount(a: seq<Address>, s: seq<Address>)
    requires NoDuplicates(a) && forall x :: x in a ==> x in s
    ensures |a| <= |s|
    decreases |a|
  {
    if a != [] {
      var n := |a| - 1;
      assert a[n] in a;
      var i :| 0 <= i < |s| && s[i] == a[n];
      var rest := s[..i] + s[i + 1..];
      forall x | x in a[..n]
        ensures x in rest
      {
        assert x in a;
        var j :| 0 <= j < |s| && s[j] == x;
        assert rest[if j < i then j else j - 1] == x;
      }
      DistinctCount(a[..n], rest);
    }
  }

  // A group whose "Join" list is empty and that has no "Join*".
  predicate EmptyJoin(r: RawGroup) {
    r.rpt.None? && r.spt == Some([])
  }

  // ---- Writing and then loading ----

  // 0.0.0.0, 255.255.255.255, 127.0.0.0/8 and 224.0.0.0/4 are no sources.
  predicate SourceAddress(a: Address) {
    a != 0 && a != 0xffff_ffff && !(0x7f00_0000 <= a <= 0x7fff_ffff) && !(0xe000_0000 <= a <= 0xefff_ffff)
  }

  ghost predicate SourceList(s: seq<Address>) {
    (forall i, j :: 0 <= i < j < |s| ==> s[i] < s[j]) && forall x :: x in s ==> SourceAddress(x)
  }

  ghost predicate GroupConfigurable(g: GroupConfig) {
    && 0xe000_0000 <= g.group <= 0xefff_ffff
    && SourceList(g.spt)
    && (g.rpt.Some? ==>
          var rp, prunes := g.rpt.value.rp, g.rpt.value.prunes;
          && SourceAddress(rp) && SourceList(prunes) && |prunes| <= 180
          && rp !in g.spt && rp !in prunes && forall x :: x in prunes ==> x !in g.spt)
  }

  // The configurations that can be written: distinct multicast groups, each with
  // ascending lists of unicast sources, no address in two roles.
  ghost predicate Configurable(cfg: JPConfig) {
    && cfg != []
    && (forall i :: 0 <= i < |cfg| ==> GroupConfigurable(cfg[i]))
    && (forall i, j :: 0 <= i < j < |cfg| ==> cfg[i].group != cfg[j].group)
  }

  function Written(s: seq<Address>): seq<Option<Address>> {
    seq(|s|, i requires 0 <= i < |s| => Some(s[i]))
  }

  // The input lists what is in the group, the sources of a list in any order.  Only a
  // group with an RP may do without a list of sources.
  ghost predicate Spelled(r: RawGroup, g: GroupConfig) {
    && r.group == Some(g.group)
    && (r.rpt.Some? <==> g.rpt.Some?)
    && (r.rpt.Some? ==>
          && r.rpt.value.rp == Some(g.rpt.value.rp)
          && multiset(r.rpt.value.prunes) == multiset(Written(g.rpt.value.prunes)))
    && (if r.spt.Some? then multiset(r.spt.value) == multiset(Written(g.spt)) else g.spt == [] && g.rpt.Some?)
  }

  ghost predicate Spells(raw: seq<RawGroup>, cfg: JPConfig) {
    |raw| == |cfg| && forall i :: 0 <= i < |raw| ==> Spelled(raw[i], cfg[i])
  }

  lemma SourceIs(a: Address)
    ensures UcAddr(Some(a)).Some? <==> SourceAddress(a)
  {
  }

  lemma {:induction false} WrittenHas(s: seq<Address>)
    ensures forall y :: y in Written(s) <==> y.Some? && y.value in s
    ensures NoDuplicates(Written(s)) <==> NoDuplicates(s)
  {
    var w := Written(s);
    assert forall i :: 0 <= i < |s| ==> w[i] == Some(s[i]);
    forall y: Option<Address> | y.Some? && y.value in s
      ensures y in w
    {
      var i :| 0 <= i < |s| && s[i] == y.value;
      assert w[i] == y;
    }
  }

  // A list is sorted from the input exactly if it is ascending and the input lists it
  // in some order.
  lemma SortedIffListed(s: seq<Address>, raw: seq<Option<Address>>)
    requires Ascending(s)
    ensures SortedFrom(s, raw) && NoDuplicates(raw) && (forall y :: y in raw ==> y.Some?)
       <==> multiset(raw) == multiset(Written(s))
  {
    var w := Written(s);
    WrittenHas(s);
    CountOnce(w);
    CountOnce(raw);
    hide NoDuplicates;
    assert NoDuplicates(s) by {
      AscendingDistinct(s);
    }
    if SortedFrom(s, raw) && NoDuplicates(raw) && forall y :: y in raw ==> y.Some? {
      forall y: Option<Address>
        ensures y in raw <==> y in w
      {
        assert y.Some? ==> y == Some(y.value);
      }
      assert forall y :: multiset(raw)[y] == multiset(w)[y];
    }
    if multiset(raw) == multiset(w) {
      assert forall y :: y in raw <==> y in w;
      assert forall x: Address :: x in s <==> Some(x) in w;
    }
  }

  lemma AscendingDistinct(s: seq<Address>)
    requires Ascending(s)
    ensures NoDuplicates(s)
  {
  }

  lemma NoDuplicatesConcat<T>(s: seq<T>, t: seq<T>)
    ensures NoDuplicates(s + t) <==> NoDuplicates(s) && NoDuplicates(t) && Disjoint(s, t)
  {
    var u := s + t;
    if NoDuplicates(u) {
      assert forall i :: 0 <= i < |s| ==> s[i] == u[i];
      assert forall i :: 0 <= i < |t| ==> t[i] == u[|s| + i];
      forall i, j | 0 <= i < |s| && 0 <= j < |t|
        ensures s[i] != t[j]
      {
        assert s[i] == u[i] && t[j] == u[|s| + j];
      }
    }
    if NoDuplicates(s) && NoDuplicates(t) && Disjoint(s, t) {
      forall i, j | 0 <= i < j < |u|
        ensures u[i] != u[j]
      {
        assert j < |s| || u[j] == t[j - |s|];
        assert i >= |s| || s[i] in s;
      }
    }
  }

  // The three lists of a group are valid together exactly if each is, and they are
  // disjoint.
  lemma SourcesValidParts(rp: seq<Option<Address>>, prunes: seq<Option<Address>>, spt: seq<Option<Address>>)
    ensures SourcesValid(rp, prunes, spt) <==>
              && NoDuplicates(rp) && NoDuplicates(prunes) && NoDuplicates(spt)
              && Disjoint(rp, prunes) && Disjoint(rp, spt) && Disjoint(prunes, spt)
              && (forall x :: x in rp ==> UcAddr(x).Some?)
              && (forall x :: x in prunes ==> UcAddr(x).Some?)
              && (forall x :: x in spt ==> UcAddr(x).Some?)
              && |prunes| <= MAX_PRUNE_SG_RPT
  {
    hide UcAddr, NoDuplicates;
    NoDuplicatesConcat(rp, prunes);
    NoDuplicatesConcat(rp + prunes, spt);
    assert forall x :: x in rp + prunes + spt <==> x in rp || x in prunes || x in spt;
    assert forall x :: x in rp + prunes <==> x in rp || x in prunes;
  }

  // A list of the input that gives a list of sources.
  ghost predicate Gives(raw: seq<Option<Address>>, s: seq<Address>) {
    SortedFrom(s, raw) && NoDuplicates(raw) && forall x :: x in raw ==> UcAddr(x).Some?
  }

  lemma GivesIffListed(raw: seq<Option<Address>>, s: seq<Address>)
    ensures Gives(raw, s) <==> SourceList(s) && multiset(raw) == multiset(Written(s))
    ensures Gives(raw, s) ==> |raw| == |s| && forall x: Address :: Some(x) in raw <==> x in s
  {
    hide NoDuplicates, UcAddr;
    if Ascending(s) {
      SortedIffListed(s, raw);
      WrittenHas(s);
      forall x: Address
        ensures UcAddr(Some(x)).Some? <==> SourceAddress(x)
      {
        SourceIs(x);
      }
      if Gives(raw, s) {
        SomeOf(raw);
        assert forall y :: y in raw <==> y in multiset(raw);
        assert |multiset(raw)| == |multiset(Written(s))|;
        assert forall x :: x in s ==> Some(x) in raw;
      }
      if SourceList(s) && multiset(raw) == multiset(Written(s)) {
        assert forall y :: y in raw <==> y in Written(s);
        assert forall y :: y in raw ==> y.Some? && y == Some(y.value);
      }
    }
  }

  lemma SomeOf(raw: seq<Option<Address>>)
    ensures (forall x :: x in raw ==> UcAddr(x).Some?) ==> forall x :: x in raw ==> x.Some?
  {
  }

  lemma GroupIffSpelled(r: RawGroup, g: GroupConfig)
    ensures GrpAddr(r.group).Some? && GroupValid(r) && Reads(g, r) <==> GroupConfigurable(g) && Spelled(r, g)
  {
    hide NoDuplicates, UcAddr, SourceList, Written, SortedFrom, Gives;
    SourcesValidParts(RawRP(r), RawPrunes(r), RawSpt(r));
    GivesIffListed(RawSpt(r), g.spt);
    GivesIs(RawSpt(r), g.spt);
    OneDistinct(RawRP(r));
    EmptyWritten();
    if r.rpt.Some? && g.rpt.Some? {
      GivesIffListed(r.rpt.value.prunes, g.rpt.value.prunes);
      GivesIs(r.rpt.value.prunes, g.rpt.value.prunes);
      SourceIs(g.rpt.value.rp);
      RolesApart(r, g);
    } else {
      NoneDistinct();
    }
  }

  lemma GivesIs(raw: seq<Option<Address>>, s: seq<Address>)
    ensures Gives(raw, s) <==> SortedFrom(s, raw) && NoDuplicates(raw) && forall x :: x in raw ==> UcAddr(x).Some?
  {
  }

  lemma OneDistinct(s: seq<Option<Address>>)
    ensures |s| <= 1 ==> NoDuplicates(s)
  {
  }

  lemma NoneDistinct()
    ensures forall s: seq<Option<Address>> :: Disjoint([], s) && Disjoint(s, [])
    ensures NoDuplicates<Option<Address>>([])
  {
  }

  lemma EmptyWritten()
    ensures Written([]) == [] && multiset(Written([])) == multiset{}
    ensures forall s: seq<Address> :: |Written(s)| == |s|
  {
  }

  // The addresses of the roles are apart in the input as they are in the group.
  lemma RolesApart(r: RawGroup, g: GroupConfig)
    requires r.rpt.Some? && g.rpt.Some?
    ensures Gives(RawSpt(r), g.spt) && Gives(r.rpt.value.prunes, g.rpt.value.prunes)
            && r.rpt.value.rp == Some(g.rpt.value.rp) ==>
              && (Disjoint(RawRP(r), RawPrunes(r)) <==> g.rpt.value.rp !in g.rpt.value.prunes)
              && (Disjoint(RawRP(r), RawSpt(r)) <==> g.rpt.value.rp !in g.spt)
              && (Disjoint(RawPrunes(r), RawSpt(r)) <==> forall x :: x in g.rpt.value.prunes ==> x !in g.spt)
  {
    GivesIffListed(RawSpt(r), g.spt);
    GivesIffListed(r.rpt.value.prunes, g.rpt.value.prunes);
    GivesIs(r.rpt.value.prunes, g.rpt.value.prunes);
    SomeOf(r.rpt.value.prunes);
    hide Gives, UcAddr, NoDuplicates, SortedFrom;
    assert forall y :: y in r.rpt.value.prunes && y.Some? ==> y == Some(y.value);
  }

  // What loads is what can be written, and it loads as what was written.
  lemma LoadsIffSpells(raw: seq<RawGroup>, cfg: JPConfig)
    ensures LoadsAs(raw, cfg) <==> Configurable(cfg) && Spells(raw, cfg)
  {
    hide GroupValid, Reads, GroupConfigurable, GrpAddr;
    if |raw| == |cfg| {
      forall i | 0 <= i < |raw|
        ensures GrpAddr(raw[i].group).Some? && GroupValid(raw[i]) && Reads(cfg[i], raw[i])
           <==> GroupConfigurable(cfg[i]) && Spelled(raw[i], cfg[i])
      {
        GroupIffSpelled(raw[i], cfg[i]);
      }
      forall i | 0 <= i < |raw|
        ensures Reads(cfg[i], raw[i]) || Spelled(raw[i], cfg[i]) ==> raw[i].group == Some(cfg[i].group)
      {
        SameAddress(raw[i], cfg[i]);
      }
    }
  }

  lemma SameAddress(r: RawGroup, g: GroupConfig)
    ensures Reads(g, r) || Spelled(r, g) ==> r.group == Some(g.group)
  {
  }

  // A group is written with "Join*" if it has an RP, and with "Join" if it has sources
  // or nothing at all.
  function RawOf(cfg: JPConfig): seq<RawGroup> {
    seq(|cfg|, i requires 0 <= i < |cfg| =>
      RawGroup(Some(cfg[i].group),
               if cfg[i].rpt.Some? then Some(RawRPT(Some(cfg[i].rpt.value.rp), Written(cfg[i].rpt.value.prunes)))
               else None,
               if cfg[i].spt == [] && cfg[i].rpt.Some? then None else Some(Written(cfg[i].spt))))
  }

  // The round trip: every configuration that can be written loads back as it was.
  lemma WrittenLoads(cfg: JPConfig)
    requires Configurable(cfg)
    ensures LoadsAs(RawOf(cfg), cfg)
  {
    hide Configurable, LoadsAs;
    LoadsIffSpells(RawOf(cfg), cfg);
  }

  // A configuration that loads has all that the packer and the check ask for,
  // except that a group may ask for nothing, and it has as many sources as listed.
  lemma LoadedFromRaw(cfg: JPConfig, raw: seq<RawGroup>)
    requires LoadsAs(raw, cfg)
    ensures Loaded(cfg)
    ensures forall i :: 0 <= i < |raw| ==> (AsksForNothing(cfg[i]) <==> EmptyJoin(raw[i]))
    ensures forall i :: 0 <= i < |raw| ==> |cfg[i].spt| == |RawSpt(raw[i])|
  {
    forall i | 0 <= i < |raw|
      ensures GroupLoaded(cfg[i])
      ensures AsksForNothing(cfg[i]) <==> EmptyJoin(raw[i])
      ensures |cfg[i].spt| == |RawSpt(raw[i])|
    {
      LoadedGroup(cfg[i], raw[i]);
      LoadedCount(cfg[i], raw[i]);
    }
  }

  lemma LoadedCount(g: GroupConfig, r: RawGroup)
    requires GroupValid(r) && Reads(g, r)
    ensures |g.spt| == |RawSpt(r)|
  {
    NoDuplicatesSuffix(RawRP(r) + RawPrunes(r), RawSpt(r));
    hide UcAddr, NoDuplicates, Ascending;
    assert forall x :: x in RawSpt(r) ==> x in RawRP(r) + RawPrunes(r) + RawSpt(r);
    SortedCount(g.spt, RawSpt(r));
  }

  lemma NoDuplicatesSuffix<T>(s: seq<T>, t: seq<T>)
    requires NoDuplicates(s + t)
    ensures NoDuplicates(t)
  {
    assert forall i :: 0 <= i < |t| ==> t[i] == (s + t)[|s| + i];
  }

  // The input determines the configuration.
  lemma LoadsAsOne(raw: seq<RawGroup>, cfg: JPConfig, cfg': JPConfig)
    requires LoadsAs(raw, cfg) && LoadsAs(raw, cfg')
    ensures cfg == cfg'
  {
    forall i | 0 <= i < |raw|
      ensures cfg[i] == cfg'[i]
    {
      SortedOnce(cfg[i].spt, cfg'[i].spt);
      if cfg[i].rpt.Some? {
        SortedOnce(cfg[i].rpt.value.prunes, cfg'[i].rpt.value.prunes);
      }
    }
  }

  lemma {:induction false} SortedOnce(s: seq<Address>, t: seq<Address>)
    requires Ascending(s) && Ascending(t) && forall x :: x in s <==> x in t
    ensures s == t
  {
    assert t != [] ==> t[0] in t;
    if s != [] {
      var m, n := |s| - 1, |t| - 1;
      assert s[m] in s && s[m] in t;
      assert t[n] in t && t[n] in s;
      assert s[m] == t[n];
      forall x: Address
        ensures x in s[..m] <==> x in t[..n]
      {
        assert x in s[..m] <==> x in s && x != s[m];
        assert x in t[..n] <==> x in t && x != t[n];
      }
      SortedOnce(s[..m], t[..n]);
      assert s == s[..m] + [s[m]] && t == t[..n] + [t[n]];
    }
  }

  lemma LoadedGroup(g: GroupConfig, r: RawGroup)
    requires GroupValid(r) && Reads(g, r)
    ensures GroupLoaded(g)
    ensures AsksForNothing(g) <==> EmptyJoin(r)
  {
    var rp, prunes, spt := RawRP(r), RawPrunes(r), RawSpt(r);
    var all := rp + prunes + spt;
    forall i, j | 0 <= i < |prunes| && 0 <= j < |spt|
      ensures prunes[i] != spt[j]
    {
      assert prunes[i] == all[|rp| + i] && spt[j] == all[|rp| + |prunes| + j];
    }
    if g.rpt.Some? {
      AscendingCount(g.rpt.value.prunes, prunes);
      assert forall x :: x in g.spt ==> Some(x) in spt;
      assert forall x :: x in g.rpt.value.prunes ==> Some(x) in prunes;
    } else {
      if spt != [] {
        assert spt[0] in all;
        assert spt[0].value in g.spt;
      }
      if g.spt != [] {
        assert Some(g.spt[0]) in spt;
      }
    }
  }
}
