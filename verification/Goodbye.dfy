// The neighbor when pimc stops: what the inverse updates make of its state.
module Goodbye {
  import opened JoinPrune
  import opened InverseFit
  import opened Conservation
  import opened InverseTheorems
  import opened Startup
  import opened Neighbor

  // An update that only prunes: RPs and sources, both with their proper bits.
  ghost predicate OnlyPrunes(u: Update) {
    forall e :: e in u ==> e.joins == [] && forall s :: s in e.prunes ==> s.wildcard == s.rpt
  }

  // t is st without the sources and RPs that the entries prune.
  ghost predicate Gone(st: State, t: State, es: set<GroupEntry>) {
    && t.pruned == st.pruned && t.tmp == st.tmp
    && (forall x :: x in t.joined <==>
          x in st.joined && forall e :: e in es && e.group == x.group ==> x.source !in Addresses(e.prunes, false))
    && (forall a :: a in t.star <==>
          a in st.star && forall e :: e in es && e.group == a ==> Addresses(e.prunes, true) == [])
    && (forall a :: a in t.star && a in st.star ==> t.star[a] == st.star[a])
  }

  lemma GoneWithin(st: State, t: State, es: set<GroupEntry>)
    requires Gone(st, t, es)
    ensures Within(t, st)
  {
  }

  lemma {:induction false} PrunesGone(st: State, a: Address, ss: seq<Source>)
    requires forall s :: s in ss ==> s.wildcard == s.rpt
    ensures var t := OnPrunes(st, a, ss);
            && t.pruned == st.pruned && t.tmp == st.tmp
            && t.joined == st.joined - Pairs(a, Addresses(ss, false))
            && t.star == (if Addresses(ss, true) == [] then st.star else st.star - {a})
  {
    if ss != [] {
      var n := |ss| - 1;
      assert ss == ss[..n] + [ss[n]];
      PrunesGone(st, a, ss[..n]);
      AddressesAppend(ss[..n], ss[n], false);
      AddressesAppend(ss[..n], ss[n], true);
      assert Pairs(a, Addresses(ss[..n], false) + [ss[n].addr])
          == Pairs(a, Addresses(ss[..n], false)) + {SG(a, ss[n].addr)};
    } else {
      assert Pairs(a, []) == {};
    }
  }

  lemma EntryGone(st: State, e: GroupEntry)
    requires e.joins == [] && forall s :: s in e.prunes ==> s.wildcard == s.rpt
    ensures Gone(st, OnEntry(st, e), {e})
  {
    PrunesGone(st, e.group, e.prunes);
  }

  lemma GoneTwice(st: State, t: State, t': State, es: set<GroupEntry>, fs: set<GroupEntry>)
    requires Gone(st, t, es) && Gone(t, t', fs)
    ensures Gone(st, t', es + fs)
  {
    hide Addresses;
  }

  lemma {:induction false} MessageGone(st: State, u: Update)
    requires OnlyPrunes(u)
    ensures Gone(st, OnEntries(st, u), EntrySet(u))
  {
    hide Gone;
    if u != [] {
      var v, e := u[..|u| - 1], u[|u| - 1];
      assert u == v + [e];
      assert forall x :: x in v ==> x in u;
      assert e in u;
      MessageGone(st, v);
      EntryGone(OnEntries(st, v), e);
      GoneTwice(st, OnEntries(st, v), OnEntries(st, u), EntrySet(v), {e});
      assert EntrySet(u) == EntrySet(v) + {e};
    } else {
      NothingGone(st);
      assert EntrySet(u) == {};
    }
  }

  lemma NothingGone(st: State)
    ensures Gone(st, st, {})
  {
  }

  lemma {:induction false} RunGone(st: State, us: seq<Update>, run: seq<nat>)
    requires forall k :: 0 <= k < |run| ==> run[k] < |us|
    requires forall u :: u in us ==> OnlyPrunes(u)
    requires st.tmp == {}
    ensures Gone(st, ReceiveRun(st, us, run), RunEntries(us, run))
  {
    hide OnlyPrunes;
    if run != [] {
      var r, i := run[..|run| - 1], run[|run| - 1];
      var t := ReceiveRun(st, us, r);
      RunGone(st, us, r);
      MessageGone(t, us[i]);
      assert Receive(t, us[i]) == OnEntries(t, us[i]);
      GoneTwice(st, t, Receive(t, us[i]), RunEntries(us, r), EntrySet(us[i]));
      assert RunEntries(us, run) == RunEntries(us, r) + EntrySet(us[i]);
    }
  }

  lemma InverseOnlyPrunes(cfg: JPConfig)
    requires DistinctGroups(cfg)
    ensures forall u :: u in InversePacked(cfg) ==> OnlyPrunes(u)
  {
    InverseCarries(cfg);
    forall u, e | u in InversePacked(cfg) && e in u
      ensures e.joins == [] && forall s :: s in e.prunes ==> s.wildcard == s.rpt
    {
      EntriesOfMember(e.group, InversePacked(cfg), e);
      assert e.group in GroupSet(cfg);
      var m :| 0 <= m < |cfg| && cfg[m].group == e.group;
      var withRP := cfg[m].rpt.Some? && !DropsAt(cfg, m);
      var es := EntriesOf(e.group, InversePacked(cfg));
      assert PrunesExactly(es, Prunes(cfg[m], withRP));
      forall s | s in e.prunes
        ensures s.wildcard == s.rpt
      {
        PruneListed(es, e, s);
        PrunesFlags(cfg[m], withRP);
      }
    }
  }

  // An address that is listed for a group is listed by one of its entries.
  lemma {:induction false} ListedInEntry(es: seq<GroupEntry>, x: Address, w: bool) returns (e: GroupEntry)
    requires x in Listed(es, true, w)
    ensures e in es && x in Addresses(e.prunes, w)
  {
    if x in Addresses(es[0].prunes, w) {
      e := es[0];
    } else {
      e := ListedInEntry(es[1..], x, w);
    }
  }

  lemma {:induction false} ListedHas(es: seq<GroupEntry>, e: GroupEntry, x: Address, w: bool)
    requires e in es && x in Addresses(e.prunes, w)
    ensures x in Listed(es, true, w)
  {
    if e != es[0] {
      ListedHas(es[1..], e, x, w);
    }
  }

  lemma {:induction false} ListedNone(es: seq<GroupEntry>, e: GroupEntry, w: bool)
    requires e in es && Listed(es, true, w) == []
    ensures Addresses(e.prunes, w) == []
  {
    if e != es[0] {
      ListedNone(es[1..], e, w);
    }
  }

  lemma GroupPruned(cfg: JPConfig, m: nat)
    requires DistinctGroups(cfg) && m < |cfg|
    ensures var es := EntriesOf(cfg[m].group, InversePacked(cfg));
            && PrunedSources(es) == cfg[m].spt
            && PrunedRPs(es) == RpOf(cfg[m], cfg[m].rpt.Some? && !DropsAt(cfg, m))
  {
    InverseCarries(cfg);
    var es := EntriesOf(cfg[m].group, InversePacked(cfg));
    AllPrunesListed(es, false);
    AllPrunesListed(es, true);
    PrunesAddresses(cfg[m], cfg[m].rpt.Some? && !DropsAt(cfg, m));
  }

  // The farewell.  Whatever state the neighbor was in, and whatever order and number
  // of times the inverse updates arrive in, once all have arrived the configured (S,G)
  // joins are gone, and the (*,G) joins of the configured groups with an RPT but for
  // those whose RP prune was lost; nothing else has changed.  The (S,G,rpt) prunes,
  // which the inverse updates do not mention, are left to expire.
  lemma Farewell(cfg: JPConfig, st: State, run: seq<nat>)
    requires DistinctGroups(cfg) && st.tmp == {}
    requires forall k :: 0 <= k < |run| ==> run[k] < |InversePacked(cfg)|
    requires forall i: nat :: i < |InversePacked(cfg)| ==> i in run
    ensures var t := ReceiveRun(st, InversePacked(cfg), run);
            && t.joined == st.joined - Wanted(cfg).joined
            && t.pruned == st.pruned && t.tmp == {}
            && (forall m :: 0 <= m < |cfg| ==>
                  (cfg[m].group in t.star <==> cfg[m].group in st.star && (cfg[m].rpt.None? || DropsAt(cfg, m))))
            && (forall a :: a !in GroupSet(cfg) ==> (a in t.star <==> a in st.star))
            && (forall a :: a in t.star ==> a in st.star && t.star[a] == st.star[a])
  {
    var us := InversePacked(cfg);
    var t, es := ReceiveRun(st, us, run), RunEntries(us, run);
    InverseOnlyPrunes(cfg);
    RunGone(st, us, run);
    RunHasAll(us, run);
    hide InversePacked, ReceiveRun, RunEntries, DropsAt, Addresses, Listed, EntriesOf;
    forall m | 0 <= m < |cfg|
      ensures cfg[m].group in t.star <==> cfg[m].group in st.star && (cfg[m].rpt.None? || DropsAt(cfg, m))
    {
      RPFarewell(cfg, m, es);
    }
    forall e | e in es
      ensures e.group in GroupSet(cfg)
    {
      InverseGroups(cfg, e);
    }
    forall x: SG
      ensures x in t.joined <==> x in st.joined && x !in Wanted(cfg).joined
    {
      JoinFarewell(cfg, es, x);
    }
  }

  lemma InverseGroups(cfg: JPConfig, e: GroupEntry)
    requires DistinctGroups(cfg) && exists u :: u in InversePacked(cfg) && e in u
    ensures e.group in GroupSet(cfg)
  {
    InverseCarries(cfg);
    EntriesOfMember(e.group, InversePacked(cfg), e);
  }

  // The sources that some entry prunes are those of the configured (S,G) joins.
  lemma JoinFarewell(cfg: JPConfig, es: set<GroupEntry>, x: SG)
    requires DistinctGroups(cfg)
    requires forall e :: e in es <==> exists u :: u in InversePacked(cfg) && e in u
    ensures x in Wanted(cfg).joined <==>
              exists e :: e in es && e.group == x.group && x.source in Addresses(e.prunes, false)
  {
    var us := InversePacked(cfg);
    hide InversePacked, EntriesOf, Addresses, Listed;
    var mine := EntriesOf(x.group, us);
    if x in Wanted(cfg).joined {
      var m :| 0 <= m < |cfg| && cfg[m].group == x.group && x.source in cfg[m].spt;
      GroupPruned(cfg, m);
      var e := ListedInEntry(mine, x.source, false);
      EntriesOfMember(x.group, us, e);
    }
    if e :| e in es && e.group == x.group && x.source in Addresses(e.prunes, false) {
      InverseGroups(cfg, e);
      var m :| 0 <= m < |cfg| && cfg[m].group == x.group;
      GroupPruned(cfg, m);
      EntriesOfMember(x.group, us, e);
      ListedHas(mine, e, x.source, false);
      assert x == SG(cfg[m].group, x.source) && cfg[m] in cfg;
    }
  }

  // The RP of the group is pruned by some entry, unless it has none or that prune is
  // dropped.
  lemma RPFarewell(cfg: JPConfig, m: nat, es: set<GroupEntry>)
    requires DistinctGroups(cfg) && m < |cfg|
    requires forall e :: e in es <==> exists u :: u in InversePacked(cfg) && e in u
    ensures cfg[m].rpt.None? || DropsAt(cfg, m) <==>
            forall e :: e in es && e.group == cfg[m].group ==> Addresses(e.prunes, true) == []
  {
    var g, us := cfg[m], InversePacked(cfg);
    var mine := EntriesOf(g.group, us);
    GroupPruned(cfg, m);
    hide InversePacked, DropsAt, EntriesOf, Addresses, Listed;
    if g.rpt.None? || DropsAt(cfg, m) {
      forall e | e in es && e.group == g.group
        ensures Addresses(e.prunes, true) == []
      {
        EntriesOfMember(g.group, us, e);
        ListedNone(mine, e, true);
      }
    } else {
      var e := ListedInEntry(mine, g.rpt.value.rp, true);
      EntriesOfMember(g.group, us, e);
    }
  }
}
