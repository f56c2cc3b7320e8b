// The sanity check of inverse updates.  It is the check of packed updates with
// prunes in place of joins, and it reads no RPT prunes.
module InverseChecker {
  import opened JoinPrune
  import opened Conservation
  import opened Neighbor
  import opened Mentions
  import opened Checker

  // ---- What the check accepts ----

  ghost predicate InverseFlagsOk(e: GroupEntry) {
    e.joins == [] && forall s :: s in e.prunes ==> s.wildcard == s.rpt
  }

  ghost predicate InverseAccepted(es: seq<GroupEntry>) {
    && (forall e :: e in es ==> InverseFlagsOk(e))
    && Consistent(PrunedSources(es), PrunedRPs(es), [])
  }

  ghost predicate Undoes(es: seq<GroupEntry>, g: GroupConfig) {
    && Elements(PrunedSources(es)) == Elements(g.spt)
    && PrunedRPs(es) == (if g.rpt.Some? then [g.rpt.value.rp] else [])
  }

  ghost predicate InverseVerified(cfg: JPConfig, us: seq<Update>) {
    && GroupsOf(us) == Configs(cfg).Keys
    && (forall a :: a in Configs(cfg) ==>
          InverseAccepted(EntriesOf(a, us)) && Undoes(EntriesOf(a, us), Configs(cfg)[a]))
  }

  // ---- The step from one source to the next ----

  lemma InverseViewAppend(es: seq<GroupEntry>, e: GroupEntry)
    ensures PrunedSources(es + [e]) == PrunedSources(es) + Addresses(e.prunes, false)
    ensures PrunedRPs(es + [e]) == PrunedRPs(es) + Addresses(e.prunes, true)
  {
    ListedAppend(es, [e], true, false);
    ListedAppend(es, [e], true, true);
    ListedOne(e, true, false);
    ListedOne(e, true, true);
  }

  lemma InverseFlagsAppend(es: seq<GroupEntry>, e: GroupEntry)
    ensures (forall x :: x in es + [e] ==> InverseFlagsOk(x))
       <==> (forall x :: x in es ==> InverseFlagsOk(x)) && InverseFlagsOk(e)
  {
    assert forall x :: x in es + [e] <==> x in es || x == e;
  }

  // An entry without prunes is acceptable iff it has no joins either.
  lemma InverseBlank(es: seq<GroupEntry>, a: Address, js: seq<Source>)
    ensures var fs := es + [GroupEntry(a, js, [])];
            && PrunedSources(fs) == PrunedSources(es) && PrunedRPs(fs) == PrunedRPs(es)
            && (InverseAccepted(fs) <==> InverseAccepted(es) && js == [])
  {
    var e := GroupEntry(a, js, []);
    InverseViewAppend(es, e);
    InverseFlagsAppend(es, e);
    assert PrunedSources(es) + [] == PrunedSources(es);
    assert PrunedRPs(es) + [] == PrunedRPs(es);
    hide Listed;
    assert InverseFlagsOk(e) <==> js == [];
  }

  lemma InversePruneStep(es: seq<GroupEntry>, a: Address, js: seq<Source>, ss: seq<Source>, s: Source)
    ensures var fs, fs' := es + [GroupEntry(a, js, ss)], es + [GroupEntry(a, js, ss + [s])];
            && PrunedSources(fs') == PrunedSources(fs) + If(!s.wildcard, s.addr)
            && PrunedRPs(fs') == PrunedRPs(fs) + If(s.wildcard, s.addr)
            && (InverseAccepted(fs') <==>
                  InverseAccepted(fs) && JoinFits(s, PrunedSources(fs), PrunedRPs(fs), []))
  {
    var e, e' := GroupEntry(a, js, ss), GroupEntry(a, js, ss + [s]);
    var fs, fs' := es + [e], es + [e'];
    assert InverseFlagsOk(e') <==> InverseFlagsOk(e) && s.wildcard == s.rpt;
    hide Listed, Addresses, InverseFlagsOk, Consistent, JoinFits;
    InverseFlagsAppend(es, e);
    InverseFlagsAppend(es, e');
    InverseViewAppend(es, e);
    InverseViewAppend(es, e');
    AddressesAppend(ss, s, false);
    AddressesAppend(ss, s, true);
    ConsistentJoin(PrunedSources(fs), PrunedRPs(fs), [], s);
  }

  // ---- The converter of one group ----

  ghost function InverseRead(es: seq<GroupEntry>): ReadGroup {
    ReadGroup(
      if PrunedRPs(es) == [] then None else Some(ReadRPT(PrunedRPs(es)[0], {})),
      Elements(PrunedSources(es)))
  }

  class InverseGroupEntryConverter {
    ghost const group: Address
    var joins: set<Address>
    var rp: Option<Address>
    var failed: bool

    ghost var Seen: seq<GroupEntry>

    ghost predicate Holds(es: seq<GroupEntry>)
      reads this
    {
      && (failed <==> !InverseAccepted(es))
      && (!failed ==>
            && joins == Elements(PrunedSources(es))
            && PrunedRPs(es) == (if rp.Some? then [rp.value] else []))
    }

    ghost predicate Valid()
      reads this
    {
      Holds(Seen)
    }

    constructor (ghost group: Address)
      ensures Valid() && Seen == [] && this.group == group
    {
      this.group := group;
      joins, rp, failed := {}, None, false;
      Seen := [];
    }

    method AddPrune(se: Source, ghost es: seq<GroupEntry>, ghost a: Address, ghost js: seq<Source>,
                    ghost ss: seq<Source>)
      requires Holds(es + [GroupEntry(a, js, ss)])
      modifies `joins, `rp, `failed
      ensures Holds(es + [GroupEntry(a, js, ss + [se])])
    {
      hide InverseAccepted, Listed;
      InversePruneStep(es, a, js, ss, se);
      var addr := se.addr;
      if se.wildcard {
        if !se.rpt {
          failed := true;
        }
        if rp.Some? {
          failed := true;
        } else {
          rp := Some(addr);
        }
      } else {
        if se.rpt {
          failed := true;
        }
        if addr in joins {
          failed := true;
        }
        joins := joins + {addr};
      }
    }

    method Add(ge: GroupEntry)
      requires Valid()
      modifies this
      ensures Valid() && Seen == old(Seen) + [ge]
    {
      hide InverseAccepted, Listed;
      InverseBlank(Seen, ge.group, ge.joins);
      if ge.joins != [] {
        failed := true;
      }
      for i := 0 to |ge.prunes|
        invariant Seen == old(Seen)
        invariant Holds(Seen + [GroupEntry(ge.group, ge.joins, ge.prunes[..i])])
      {
        assert ge.prunes[..i + 1] == ge.prunes[..i] + [ge.prunes[i]];
        AddPrune(ge.prunes[i], Seen, ge.group, ge.joins, ge.prunes[..i]);
      }
      assert ge.prunes[..|ge.prunes|] == ge.prunes;
      assert ge == GroupEntry(ge.group, ge.joins, ge.prunes);
      Seen := Seen + [ge];
    }

    method Convert() returns (r: Option<ReadGroup>)
      requires Valid()
      ensures r.Some? <==> InverseAccepted(Seen)
      ensures r.Some? ==> r.value == InverseRead(Seen)
    {
      if failed {
        return None;
      }
      var rpt: Option<ReadRPT> := None;
      if rp.Some? {
        rpt := Some(ReadRPT(rp.value, {}));
      }
      return Some(ReadGroup(rpt, joins));
    }
  }

  // ---- From updates to configurations ----

  ghost predicate InverseConverting(cvmap: map<Address, InverseGroupEntryConverter>, us: seq<Update>)
    reads cvmap.Values
  {
    && (forall a :: a in cvmap <==> EntriesOf(a, us) != [])
    && (forall a :: a in cvmap ==>
          cvmap[a].group == a && cvmap[a].Valid() && cvmap[a].Seen == EntriesOf(a, us))
  }

  method AddEntry(cvmap: map<Address, InverseGroupEntryConverter>, ge: GroupEntry, ghost us: seq<Update>,
                  ghost u: Update)
    returns (cvmap': map<Address, InverseGroupEntryConverter>)
    requires InverseConverting(cvmap, us + [u])
    modifies cvmap.Values
    ensures InverseConverting(cvmap', us + [u + [ge]])
    ensures forall c :: c in cvmap'.Values ==> c in cvmap.Values || fresh(c)
  {
    hide EntriesOf, InverseAccepted, Listed;
    var maddr := ge.group;
    cvmap' := cvmap;
    if maddr !in cvmap {
      var cv := new InverseGroupEntryConverter(maddr);
      cvmap' := cvmap[maddr := cv];
      assert EntriesOf(maddr, us + [u]) == [];
    }
    var cv := cvmap'[maddr];
    assert forall a :: a in cvmap' && a != maddr ==> cvmap'[a] != cv;
    cv.Add(ge);
    forall a: Address
      ensures EntriesOf(a, us + [u + [ge]]) == EntriesOf(a, us + [u]) + (if ge.group == a then [ge] else [])
    {
      EntriesOfOneMore(a, us, u, ge);
    }
  }

  ghost predicate AllInverseAccepted(addrs: set<Address>, us: seq<Update>) {
    forall a :: a in addrs ==> InverseAccepted(EntriesOf(a, us))
  }

  ghost function InverseReadAll(addrs: set<Address>, us: seq<Update>): map<Address, ReadGroup> {
    map a | a in addrs :: InverseRead(EntriesOf(a, us))
  }

  lemma InverseReadMore(addrs: set<Address>, a: Address, us: seq<Update>)
    ensures AllInverseAccepted(addrs + {a}, us) <==> AllInverseAccepted(addrs, us) && InverseAccepted(EntriesOf(a, us))
    ensures InverseReadAll(addrs + {a}, us) == InverseReadAll(addrs, us)[a := InverseRead(EntriesOf(a, us))]
  {
    hide InverseAccepted, InverseRead, EntriesOf;
  }

  lemma InverseReadNone(us: seq<Update>)
    ensures AllInverseAccepted({}, us) && InverseReadAll({}, us) == map[]
  {
  }

  // None is the failure result.
  method ConvertAll(cvmap: map<Address, InverseGroupEntryConverter>, ghost us: seq<Update>)
    returns (r: Option<map<Address, ReadGroup>>)
    requires InverseConverting(cvmap, us)
    ensures r.Some? <==> AllInverseAccepted(cvmap.Keys, us)
    ensures r.Some? ==> r.value == InverseReadAll(cvmap.Keys, us)
  {
    hide EntriesOf, InverseAccepted, Listed, InverseRead, AllInverseAccepted, InverseReadAll;
    var todo, jpCfg, errors := cvmap.Keys, map[], false;
    ghost var done := {};
    InverseReadNone(us);
    while todo != {}
      invariant done + todo == cvmap.Keys
      invariant errors <==> !AllInverseAccepted(done, us)
      invariant !errors ==> jpCfg == InverseReadAll(done, us)
      decreases |todo|
    {
      var a :| a in todo;
      InverseReadMore(done, a, us);
      todo, done := todo - {a}, done + {a};
      var c := cvmap[a].Convert();
      if c.Some? {
        jpCfg := jpCfg[a := c.value];
      } else {
        errors := true;
      }
    }
    assert done == cvmap.Keys;
    if errors {
      return None;
    }
    return Some(jpCfg);
  }

  method ConvertInverseUpdates(us: seq<Update>) returns (r: Option<map<Address, ReadGroup>>)
    ensures r.Some? <==> AllInverseAccepted(GroupsOf(us), us)
    ensures r.Some? ==> r.value == InverseReadAll(GroupsOf(us), us)
  {
    hide EntriesOf, InverseAccepted, Listed, InverseRead;
    var cvmap: map<Address, InverseGroupEntryConverter> := map[];
    NoUpdates();
    for i := 0 to |us|
      invariant InverseConverting(cvmap, us[..i])
      invariant forall c :: c in cvmap.Values ==> fresh(c)
    {
      BlankUpdate(us[..i]);
      for j := 0 to |us[i]|
        invariant InverseConverting(cvmap, us[..i] + [us[i][..j]])
        invariant forall c :: c in cvmap.Values ==> fresh(c)
      {
        assert us[i][..j + 1] == us[i][..j] + [us[i][j]];
        cvmap := AddEntry(cvmap, us[i][j], us[..i], us[i][..j]);
      }
      assert us[i][..|us[i]|] == us[i];
      assert us[..i + 1] == us[..i] + [us[i]];
    }
    assert us[..|us|] == us;
    forall a: Address
      ensures a in cvmap <==> a in GroupsOf(us)
    {
      GroupsOfEntries(a, us);
    }
    assert cvmap.Keys == GroupsOf(us);
    r := ConvertAll(cvmap, us);
  }

  // ---- The comparison ----

  ghost predicate InverseSame(orig: GroupConfig, rslt: ReadGroup) {
    && Elements(orig.spt) == rslt.spt
    && (orig.rpt.Some? <==> rslt.rpt.Some?)
    && (orig.rpt.Some? ==> orig.rpt.value.rp == rslt.rpt.value.rp)
  }

  method CompareInverseGroup(orig: GroupConfig, rslt: ReadGroup) returns (ok: bool)
    ensures ok <==> InverseSame(orig, rslt)
  {
    ok := true;
    var spt := VecSet(orig.spt);
    var mjs, ejs := CompareAddrSets(spt, rslt.spt);
    if mjs != {} {
      ok := false;
    }
    if ejs != {} {
      ok := false;
    }
    if orig.rpt.Some? && rslt.rpt.None? {
      ok := false;
    } else if orig.rpt.None? && rslt.rpt.Some? {
      ok := false;
    } else if orig.rpt.Some? && rslt.rpt.Some? {
      if orig.rpt.value.rp != rslt.rpt.value.rp {
        ok := false;
      }
    }
  }

  method CompareInverseConfigs(orig: map<Address, GroupConfig>, rslt: map<Address, ReadGroup>) returns (ok: bool)
    ensures ok <==> orig.Keys == rslt.Keys && forall a :: a in orig ==> InverseSame(orig[a], rslt[a])
  {
    ok := true;
    var mgs, egs := CompareAddrSets(orig.Keys, rslt.Keys);
    if mgs != {} {
      ok := false;
    }
    if egs != {} {
      ok := false;
    }
    var todo := orig.Keys;
    while todo != {}
      invariant todo <= orig.Keys
      invariant ok <==> orig.Keys == rslt.Keys && forall a :: a in orig && a !in todo ==> InverseSame(orig[a], rslt[a])
      decreases |todo|
    {
      var a :| a in todo;
      todo := todo - {a};
      if a in rslt {
        var r := CompareInverseGroup(orig[a], rslt[a]);
        if !r {
          ok := false;
        }
      }
    }
  }

  lemma InverseSameIffUndoes(g: GroupConfig, es: seq<GroupEntry>)
    requires InverseAccepted(es)
    ensures InverseSame(g, InverseRead(es)) <==> Undoes(es, g)
  {
    hide Listed;
    var rps := PrunedRPs(es);
    assert rps != [] ==> rps == [rps[0]];
  }

  // ---- The same by counting mentions ----

  // A mention of a group is a source of one of its entries.
  ghost predicate IsMentioned(es: seq<GroupEntry>, m: Mention) {
    exists e :: e in es && m.source in Side(e, m.pruned)
  }

  lemma MentionOf(e: GroupEntry, m: Mention)
    ensures m in EntryMentions(e) <==> m.group == e.group && m.source in Side(e, m.pruned)
  {
    var js, ps := MentionsIn(e.group, e.joins, false), MentionsIn(e.group, e.prunes, true);
    if m.group == e.group && m.source in Side(e, m.pruned) {
      var i :| 0 <= i < |Side(e, m.pruned)| && Side(e, m.pruned)[i] == m.source;
      if m.pruned {
        assert ps[i] == m;
      } else {
        assert js[i] == m;
      }
    }
  }

  lemma {:induction false} MentionedLast(m: Mention, us: seq<Update>, u: Update)
    requires m in AllMentions(us) <==> IsMentioned(EntriesOf(m.group, us), m)
    ensures m in AllMentions(us + [u]) <==> IsMentioned(EntriesOf(m.group, us + [u]), m)
  {
    hide EntriesOf, AllMentions, EntryMentions;
    if u == [] {
      BlankUpdate(us);
      MentionsMore(us, [], GroupEntry(m.group, [], []));
    } else {
      var v, e := u[..|u| - 1], u[|u| - 1];
      assert u == v + [e];
      MentionedLast(m, us, v);
      EntriesOfOneMore(m.group, us, v, e);
      MentionsMore(us, v, e);
      MentionOf(e, m);
      var es := EntriesOf(m.group, us + [v]);
      assert forall x :: x in es + [e] <==> x in es || x == e;
    }
  }

  lemma {:induction false} MentionedIn(m: Mention, us: seq<Update>)
    ensures m in AllMentions(us) <==> IsMentioned(EntriesOf(m.group, us), m)
  {
    if us != [] {
      var n := |us| - 1;
      MentionedIn(m, us[..n]);
      MentionedLast(m, us[..n], us[n]);
      assert us == us[..n] + [us[n]];
    }
  }

  ghost predicate PrunesAt(ms: seq<Mention>, a: Address) {
    forall m :: m in ms && m.group == a ==> m.pruned && m.source.wildcard == m.source.rpt
  }

  lemma FlagsByMention(a: Address, us: seq<Update>)
    ensures (forall e :: e in EntriesOf(a, us) ==> InverseFlagsOk(e)) <==> PrunesAt(AllMentions(us), a)
  {
    var es, ms := EntriesOf(a, us), AllMentions(us);
    hide EntriesOf, AllMentions;
    if forall e :: e in es ==> InverseFlagsOk(e) {
      forall m | m in ms && m.group == a
        ensures m.pruned && m.source.wildcard == m.source.rpt
      {
        MentionedIn(m, us);
      }
    }
    if PrunesAt(ms, a) {
      forall e | e in es
        ensures InverseFlagsOk(e)
      {
        EntryFlags(a, us, e);
      }
    }
  }

  lemma EntryFlags(a: Address, us: seq<Update>, e: GroupEntry)
    requires e in EntriesOf(a, us) && PrunesAt(AllMentions(us), a)
    ensures InverseFlagsOk(e)
  {
    hide EntriesOf, AllMentions;
    forall s: Source
      ensures s !in e.joins
      ensures s in e.prunes ==> s.wildcard == s.rpt
    {
      var j, p := Mention(a, s, false), Mention(a, s, true);
      MentionedIn(j, us);
      MentionedIn(p, us);
      assert s in e.joins ==> s in Side(e, j.pruned);
      assert s in e.prunes ==> s in Side(e, p.pruned);
    }
    FirstIn(e.joins);
  }

  lemma FirstIn<T>(s: seq<T>)
    ensures s == [] || exists x :: x in s
  {
    if s != [] {
      assert s[0] in s;
    }
  }

  // With proper bits, the prunes of a source are counted by its address.
  lemma {:induction false} CountPrunes(ms: seq<Mention>, a: Address, s: Address, w: bool)
    requires PrunesAt(ms, a)
    ensures multiset(Mentioning(ms, a, w, true))[s] == multiset(ms)[Mention(a, Source(s, w, w), true)]
  {
    if ms != [] {
      var n := |ms| - 1;
      var p, m := ms[..n], ms[n];
      assert ms == p + [m];
      assert forall x :: x in p ==> x in ms;
      assert m in ms;
      CountPrunes(p, a, s, w);
    }
  }

  ghost predicate InverseCounted(g: GroupConfig, ms: seq<Mention>) {
    forall m: Mention :: m.group == g.group ==> multiset(ms)[m] == if InverseOf(g, m) then 1 else 0
  }

  lemma UndoneIsCounted(g: GroupConfig, us: seq<Update>)
    requires GroupLoaded(g)
    requires InverseAccepted(EntriesOf(g.group, us)) && Undoes(EntriesOf(g.group, us), g)
    ensures InverseCounted(g, AllMentions(us))
  {
    var es, ms := EntriesOf(g.group, us), AllMentions(us);
    hide Listed, Mentioning, EntriesOf, AllMentions, InverseFlagsOk;
    FlagsByMention(g.group, us);
    AgreesAll(g.group, us);
    CountOnce(PrunedSources(es));
    CountOnce(PrunedRPs(es));
    forall m: Mention | m.group == g.group
      ensures multiset(ms)[m] == if InverseOf(g, m) then 1 else 0
    {
      if m.pruned && m.source.wildcard == m.source.rpt {
        CountPrunes(ms, g.group, m.source.addr, m.source.wildcard);
        UndoneHas(es, g, m.source.addr);
        assert m == Mention(g.group, Source(m.source.addr, m.source.wildcard, m.source.wildcard), true);
      } else {
        CountIn(ms, m);
      }
    }
  }

  lemma UndoneHas(es: seq<GroupEntry>, g: GroupConfig, s: Address)
    requires Undoes(es, g)
    ensures s in PrunedSources(es) <==> s in g.spt
    ensures s in PrunedRPs(es) <==> g.rpt.Some? && s == g.rpt.value.rp
  {
    assert s in PrunedSources(es) <==> s in Elements(PrunedSources(es));
    assert s in g.spt <==> s in Elements(g.spt);
  }

  lemma CountedIsUndone(g: GroupConfig, us: seq<Update>)
    requires GroupLoaded(g) && InverseCounted(g, AllMentions(us))
    ensures InverseAccepted(EntriesOf(g.group, us)) && Undoes(EntriesOf(g.group, us), g)
  {
    var es, ms := EntriesOf(g.group, us), AllMentions(us);
    hide Listed, Mentioning, EntriesOf, AllMentions, InverseFlagsOk;
    forall m | m in ms && m.group == g.group
      ensures m.pruned && m.source.wildcard == m.source.rpt
    {
      CountIn(ms, m);
    }
    FlagsByMention(g.group, us);
    AgreesAll(g.group, us);
    forall s: Address
      ensures multiset(PrunedSources(es))[s] == if s in g.spt then 1 else 0
      ensures multiset(PrunedRPs(es))[s] == if g.rpt.Some? && s == g.rpt.value.rp then 1 else 0
    {
      CountPrunes(ms, g.group, s, false);
      CountPrunes(ms, g.group, s, true);
    }
    hide *;
    InverseViews(es, g);
  }

  lemma InverseViews(es: seq<GroupEntry>, g: GroupConfig)
    requires GroupLoaded(g) && forall e :: e in es ==> InverseFlagsOk(e)
    requires forall s :: multiset(PrunedSources(es))[s] == if s in g.spt then 1 else 0
    requires forall s :: multiset(PrunedRPs(es))[s] == if g.rpt.Some? && s == g.rpt.value.rp then 1 else 0
    ensures InverseAccepted(es) && Undoes(es, g)
  {
    hide Listed, InverseFlagsOk;
    CountOnce(PrunedSources(es));
    CountOnce(PrunedRPs(es));
    if g.rpt.Some? {
      OneElement(PrunedRPs(es), g.rpt.value.rp);
    } else {
      FirstIn(PrunedRPs(es));
    }
  }

  lemma InverseOther(cfg: JPConfig, us: seq<Update>, m: Mention)
    requires m.group !in GroupSet(cfg) && GroupsOf(us) == GroupSet(cfg)
    ensures multiset(AllMentions(us))[m] == 0 && !WantedInverse(cfg, m)
  {
    GroupsOfEntries(m.group, us);
    AgreesAll(m.group, us);
    assert Listed([], m.pruned, m.source.wildcard) == [];
    hide Mentioning, AllMentions;
    NotMentioned(AllMentions(us), m);
    CountIn(AllMentions(us), m);
  }

  lemma InverseIsOf(cfg: JPConfig, g: GroupConfig, m: Mention)
    requires DistinctGroups(cfg) && g in cfg && m.group == g.group
    ensures WantedInverse(cfg, m) <==> InverseOf(g, m)
  {
  }

  lemma InverseVerifiedIffExact(cfg: JPConfig, us: seq<Update>)
    requires Loaded(cfg)
    ensures InverseVerified(cfg, us) <==> InverseExact(cfg, us)
  {
    hide InverseAccepted, Undoes, EntriesOf, AllMentions, WantedInverse, InverseOf, Mentioning, Listed;
    ConfigsDistinct(cfg);
    var ms := AllMentions(us);
    if InverseVerified(cfg, us) {
      forall g | g in cfg
        ensures InverseCounted(g, ms)
      {
        UndoneIsCounted(g, us);
      }
      forall m: Mention
        ensures multiset(ms)[m] == if WantedInverse(cfg, m) then 1 else 0
      {
        if m.group in GroupSet(cfg) {
          var g :| g in cfg && g.group == m.group;
          InverseIsOf(cfg, g, m);
        } else {
          InverseOther(cfg, us, m);
        }
      }
    }
    if InverseExact(cfg, us) {
      forall a | a in Configs(cfg)
        ensures InverseAccepted(EntriesOf(a, us)) && Undoes(EntriesOf(a, us), Configs(cfg)[a])
      {
        var g :| g in cfg && g.group == a;
        forall m: Mention | m.group == a
          ensures multiset(ms)[m] == if InverseOf(g, m) then 1 else 0
        {
          InverseIsOf(cfg, g, m);
        }
        CountedIsUndone(g, us);
      }
    }
  }

  // Exact like the check of packed updates: it succeeds if and only if each configured
  // source and RP is pruned once and nothing else is listed, and inverse updates that
  // pass leave a configured neighbor that receives them without (S,G) and (*,G) joins.
  method VerifyInverseUpdates(cfg: JPConfig, us: seq<Update>) returns (ok: bool)
    ensures ok <==> InverseVerified(cfg, us)
    ensures Loaded(cfg) ==> (ok <==> InverseExact(cfg, us))
    ensures Loaded(cfg) && ok ==>
              && (forall k :: 0 <= k < |us| ==> InOrder(|us|)[k] < |us|)
              && var t := ReceiveRun(Wanted(cfg), us, InOrder(|us|));
                 t.joined == {} && t.star == map[] && t.pruned == Wanted(cfg).pruned
  {
    hide EntriesOf, InverseAccepted, Listed, InverseRead, GroupsOf, InverseExact, ReceiveRun;
    var r := ConvertInverseUpdates(us);
    if Loaded(cfg) {
      InverseVerifiedIffExact(cfg, us);
      if InverseExact(cfg, us) {
        InverseTakesEffect(cfg, us, Wanted(cfg));
      }
    }
    if r.None? {
      return false;
    }
    var orig := OrigConfigs(cfg);
    forall a | a in GroupsOf(us) && a in orig
      ensures InverseSame(orig[a], InverseRead(EntriesOf(a, us))) <==> Undoes(EntriesOf(a, us), orig[a])
    {
      InverseSameIffUndoes(orig[a], EntriesOf(a, us));
    }
    ok := CompareInverseConfigs(orig, r.value);
  }
}
