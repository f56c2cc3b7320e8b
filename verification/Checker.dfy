// The sanity check of packed updates: it folds the updates back into group
// configurations and compares these with the original ones.
module Checker {
  import opened JoinPrune
  import opened Conservation
  import opened Neighbor
  import opened Mentions

  // ---- What the check accepts ----

  ghost function Elements(s: seq<Address>): set<Address> {
    set x | x in s
  }

  ghost predicate FlagsOk(e: GroupEntry) {
    && (forall s :: s in e.joins ==> s.wildcard == s.rpt)
    && (forall s :: s in e.prunes ==> !s.wildcard && s.rpt)
  }

  ghost predicate Consistent(joins: seq<Address>, rps: seq<Address>, prunes: seq<Address>) {
    |rps| <= 1 && NoDuplicates(joins) && NoDuplicates(prunes) && Disjoint(joins, prunes)
  }

  // Every entry with prunes comes with or after the RP join of its group.
  ghost predicate RpFirst(es: seq<GroupEntry>) {
    es == [] ||
    (RpFirst(es[..|es| - 1]) && (es[|es| - 1].prunes != [] ==> JoinedRPs(es) != []))
  }

  // The entries of one group, in the order of the updates, are without fault.
  ghost predicate Accepted(es: seq<GroupEntry>) {
    && (forall e :: e in es ==> FlagsOk(e))
    && Consistent(JoinedSources(es), JoinedRPs(es), PrunedSources(es))
    && RpFirst(es)
  }

  // The entries ask for what the group is configured to ask for.
  ghost predicate Asks(es: seq<GroupEntry>, g: GroupConfig) {
    && Elements(JoinedSources(es)) == Elements(g.spt)
    && (g.rpt.None? ==> JoinedRPs(es) == [])
    && (g.rpt.Some? ==>
          && JoinedRPs(es) == [g.rpt.value.rp]
          && Elements(PrunedSources(es)) == Elements(g.rpt.value.prunes))
  }

  // The first configuration of each group.
  function Configs(cfg: JPConfig): map<Address, GroupConfig> {
    if cfg == [] then map[]
    else
      var m, g := Configs(cfg[..|cfg| - 1]), cfg[|cfg| - 1];
      if g.group in m then m else m[g.group := g]
  }

  ghost predicate Verified(cfg: JPConfig, us: seq<Update>) {
    && GroupsOf(us) == Configs(cfg).Keys
    && (forall a :: a in Configs(cfg) ==> Accepted(EntriesOf(a, us)) && Asks(EntriesOf(a, us), Configs(cfg)[a]))
  }

  // ---- The step from one source to the next ----

  lemma RpFirstAppend(es: seq<GroupEntry>, e: GroupEntry)
    ensures RpFirst(es + [e]) <==> RpFirst(es) && (e.prunes != [] ==> JoinedRPs(es + [e]) != [])
  {
    assert (es + [e])[..|es|] == es;
  }

  lemma ViewAppend(es: seq<GroupEntry>, e: GroupEntry)
    ensures JoinedSources(es + [e]) == JoinedSources(es) + Addresses(e.joins, false)
    ensures JoinedRPs(es + [e]) == JoinedRPs(es) + Addresses(e.joins, true)
    ensures PrunedSources(es + [e]) == PrunedSources(es) + Addresses(e.prunes, false)
  {
    ListedAppend(es, [e], false, false);
    ListedAppend(es, [e], false, true);
    ListedAppend(es, [e], true, false);
    ListedOne(e, false, false);
    ListedOne(e, false, true);
    ListedOne(e, true, false);
  }

  // An entry with nothing in it changes nothing.
  lemma AcceptedBlank(es: seq<GroupEntry>, a: Address)
    ensures var fs := es + [GroupEntry(a, [], [])];
            && JoinedSources(fs) == JoinedSources(es) && JoinedRPs(fs) == JoinedRPs(es)
            && PrunedSources(fs) == PrunedSources(es)
            && (Accepted(fs) <==> Accepted(es))
  {
    var e := GroupEntry(a, [], []);
    ViewAppend(es, e);
    RpFirstAppend(es, e);
    assert JoinedSources(es) + [] == JoinedSources(es);
    assert JoinedRPs(es) + [] == JoinedRPs(es);
    assert PrunedSources(es) + [] == PrunedSources(es);
    hide Listed;
    assert FlagsOk(e);
  }

  ghost predicate JoinFits(s: Source, joins: seq<Address>, rps: seq<Address>, prunes: seq<Address>) {
    if s.wildcard then s.rpt && rps == []
    else !s.rpt && s.addr !in joins && s.addr !in prunes
  }

  ghost predicate PruneFits(s: Source, joins: seq<Address>, prunes: seq<Address>) {
    !s.wildcard && s.rpt && s.addr !in prunes && s.addr !in joins
  }

  function If(b: bool, x: Address): seq<Address> {
    if b then [x] else []
  }

  lemma ConsistentJoin(joins: seq<Address>, rps: seq<Address>, prunes: seq<Address>, s: Source)
    ensures Consistent(joins + If(!s.wildcard, s.addr), rps + If(s.wildcard, s.addr), prunes) && s.wildcard == s.rpt
       <==> Consistent(joins, rps, prunes) && JoinFits(s, joins, rps, prunes)
  {
    if s.wildcard {
      assert joins + [] == joins;
    } else {
      assert rps + [] == rps;
      NoDuplicatesAppend(joins, s.addr);
      assert forall x :: x in joins + [s.addr] <==> x in joins || x == s.addr;
    }
  }

  lemma ConsistentPrune(joins: seq<Address>, rps: seq<Address>, prunes: seq<Address>, s: Source)
    ensures Consistent(joins, rps, prunes + If(!s.wildcard, s.addr)) && !s.wildcard && s.rpt
       <==> Consistent(joins, rps, prunes) && PruneFits(s, joins, prunes)
  {
    if !s.wildcard {
      NoDuplicatesAppend(prunes, s.addr);
      assert forall x :: x in prunes + [s.addr] <==> x in prunes || x == s.addr;
    }
  }

  lemma FlagsOkAppend(es: seq<GroupEntry>, e: GroupEntry, e': GroupEntry, ok: bool)
    requires FlagsOk(e') <==> FlagsOk(e) && ok
    ensures (forall x :: x in es + [e'] ==> FlagsOk(x)) <==> (forall x :: x in es + [e] ==> FlagsOk(x)) && ok
  {
    assert forall x :: x in es + [e] <==> x in es || x == e;
    assert forall x :: x in es + [e'] <==> x in es || x == e';
  }

  lemma FlagsOneMore(a: Address, js: seq<Source>, ss: seq<Source>, s: Source)
    ensures FlagsOk(GroupEntry(a, ss + [s], [])) <==> FlagsOk(GroupEntry(a, ss, [])) && s.wildcard == s.rpt
    ensures FlagsOk(GroupEntry(a, js, ss + [s])) <==> FlagsOk(GroupEntry(a, js, ss)) && !s.wildcard && s.rpt
  {
    assert forall x :: x in ss + [s] <==> x in ss || x == s;
  }

  // One more join in the last entry, which has no prunes yet.
  lemma JoinStep(es: seq<GroupEntry>, a: Address, ss: seq<Source>, s: Source)
    ensures var fs, fs' := es + [GroupEntry(a, ss, [])], es + [GroupEntry(a, ss + [s], [])];
            && JoinedSources(fs') == JoinedSources(fs) + If(!s.wildcard, s.addr)
            && JoinedRPs(fs') == JoinedRPs(fs) + If(s.wildcard, s.addr)
            && PrunedSources(fs') == PrunedSources(fs)
            && (Accepted(fs') <==>
                  Accepted(fs) && JoinFits(s, JoinedSources(fs), JoinedRPs(fs), PrunedSources(fs)))
  {
    var e, e' := GroupEntry(a, ss, []), GroupEntry(a, ss + [s], []);
    var fs, fs' := es + [e], es + [e'];
    hide Listed, Addresses, RpFirst, FlagsOk, Consistent, JoinFits;
    FlagsOneMore(a, [], ss, s);
    FlagsOkAppend(es, e, e', s.wildcard == s.rpt);
    ViewAppend(es, e);
    ViewAppend(es, e');
    AddressesAppend(ss, s, false);
    AddressesAppend(ss, s, true);
    RpFirstAppend(es, e);
    RpFirstAppend(es, e');
    ConsistentJoin(JoinedSources(fs), JoinedRPs(fs), PrunedSources(fs), s);
  }

  // One more prune in the last entry.
  lemma PruneStep(es: seq<GroupEntry>, a: Address, js: seq<Source>, ss: seq<Source>, s: Source)
    ensures var fs, fs' := es + [GroupEntry(a, js, ss)], es + [GroupEntry(a, js, ss + [s])];
            && JoinedSources(fs') == JoinedSources(fs) && JoinedRPs(fs') == JoinedRPs(fs)
            && PrunedSources(fs') == PrunedSources(fs) + If(!s.wildcard, s.addr)
            && (Accepted(fs') <==>
                  Accepted(fs) && JoinedRPs(fs) != [] && PruneFits(s, JoinedSources(fs), PrunedSources(fs)))
  {
    var e, e' := GroupEntry(a, js, ss), GroupEntry(a, js, ss + [s]);
    var fs, fs' := es + [e], es + [e'];
    hide Listed, Addresses, RpFirst, FlagsOk, Consistent, PruneFits;
    FlagsOneMore(a, js, ss, s);
    FlagsOkAppend(es, e, e', !s.wildcard && s.rpt);
    ViewAppend(es, e);
    ViewAppend(es, e');
    AddressesAppend(ss, s, false);
    RpFirstAppend(es, e);
    RpFirstAppend(es, e');
    ConsistentPrune(JoinedSources(fs), JoinedRPs(fs), PrunedSources(fs), s);
  }

  // ---- The converter of one group ----

  // The configuration that is read back from the entries of one group.  Sources
  // are compared as sets, so it keeps sets.
  datatype ReadRPT = ReadRPT(rp: Address, prunes: set<Address>)
  datatype ReadGroup = ReadGroup(rpt: Option<ReadRPT>, spt: set<Address>)

  ghost function Read(es: seq<GroupEntry>): ReadGroup {
    ReadGroup(
      if JoinedRPs(es) == [] then None else Some(ReadRPT(JoinedRPs(es)[0], Elements(PrunedSources(es)))),
      Elements(JoinedSources(es)))
  }

  class GroupEntryConverter {
    ghost const group: Address
    var joins: set<Address>
    var rp: Option<Address>
    var prunes: set<Address>
    var failed: bool

    ghost var Seen: seq<GroupEntry>  // the entries added so far

    // The flag is set exactly when the entries so far are not acceptable; until
    // then the fields hold what was read from them.
    ghost predicate Holds(es: seq<GroupEntry>)
      reads this
    {
      && (failed <==> !Accepted(es))
      && (!failed ==>
            && joins == Elements(JoinedSources(es))
            && prunes == Elements(PrunedSources(es))
            && JoinedRPs(es) == (if rp.Some? then [rp.value] else []))
    }

    ghost predicate Valid()
      reads this
    {
      Holds(Seen)
    }

    constructor (ghost group: Address)
      ensures Valid() && Seen == [] && this.group == group
    {
      this.group := group;
      joins, rp, prunes, failed := {}, None, {}, false;
      Seen := [];
    }

    method AddJoin(se: Source, ghost es: seq<GroupEntry>, ghost a: Address, ghost ss: seq<Source>)
      requires Holds(es + [GroupEntry(a, ss, [])])
      modifies `joins, `rp, `failed
      ensures Holds(es + [GroupEntry(a, ss + [se], [])])
    {
      hide Accepted, Listed;
      JoinStep(es, a, ss, se);
      var addr := se.addr;
      if se.wildcard {
        if !se.rpt {
          failed := true;
        }
        if rp.Some? {
          failed := true;
        } else {
          rp := Some(addr);
        }
      } else {
        if se.rpt {
          failed := true;
        }
        if addr in joins {
          failed := true;
        }
        joins := joins + {addr};
        if addr in prunes {
          failed := true;
        }
      }
    }

    method AddPrune(se: Source, ghost es: seq<GroupEntry>, ghost a: Address, ghost js: seq<Source>,
                    ghost ss: seq<Source>)
      requires Holds(es + [GroupEntry(a, js, ss)]) && rp.Some?
      modifies `prunes, `failed
      ensures Holds(es + [GroupEntry(a, js, ss + [se])])
    {
      hide Accepted, Listed;
      PruneStep(es, a, js, ss, se);
      var addr := se.addr;
      if se.wildcard {
        failed := true;
      }
      if !se.rpt {
        failed := true;
      }
      if addr in prunes {
        failed := true;
      }
      prunes := prunes + {addr};
      if addr in joins {
        failed := true;
      }
    }

    method Add(ge: GroupEntry)
      requires Valid()
      modifies this
      ensures Valid() && Seen == old(Seen) + [ge]
    {
      hide Accepted, Listed;
      AcceptedBlank(Seen, ge.group);
      for i := 0 to |ge.joins|
        invariant Seen == old(Seen)
        invariant Holds(Seen + [GroupEntry(ge.group, ge.joins[..i], [])])
      {
        assert ge.joins[..i + 1] == ge.joins[..i] + [ge.joins[i]];
        AddJoin(ge.joins[i], Seen, ge.group, ge.joins[..i]);
      }
      assert ge.joins[..|ge.joins|] == ge.joins;

      if rp.None? && ge.prunes != [] {
        failed := true;
        NoRp(Seen, ge);
      } else {
        for i := 0 to |ge.prunes|
          invariant Seen == old(Seen) && (rp.Some? || ge.prunes == [])
          invariant Holds(Seen + [GroupEntry(ge.group, ge.joins, ge.prunes[..i])])
        {
          assert ge.prunes[..i + 1] == ge.prunes[..i] + [ge.prunes[i]];
          AddPrune(ge.prunes[i], Seen, ge.group, ge.joins, ge.prunes[..i]);
        }
        assert ge.prunes[..|ge.prunes|] == ge.prunes;
      }
      assert ge == GroupEntry(ge.group, ge.joins, ge.prunes);
      Seen := Seen + [ge];
    }

    // None is the failure result.
    method Convert() returns (r: Option<ReadGroup>)
      requires Valid()
      ensures r.Some? <==> Accepted(Seen)
      ensures r.Some? ==> r.value == Read(Seen)
    {
      if failed {
        return None;
      }
      var rpt: Option<ReadRPT> := None;
      if rp.Some? {
        rpt := Some(ReadRPT(rp.value, prunes));
      }
      return Some(ReadGroup(rpt, joins));
    }
  }

  // An entry that has prunes while no RP join was seen is not acceptable.
  lemma NoRp(es: seq<GroupEntry>, ge: GroupEntry)
    requires ge.prunes != []
    requires !Accepted(es + [GroupEntry(ge.group, ge.joins, [])])
          || JoinedRPs(es + [GroupEntry(ge.group, ge.joins, [])]) == []
    ensures !Accepted(es + [ge])
  {
    var b := GroupEntry(ge.group, ge.joins, []);
    FlagsOkAppend(es, b, ge, forall s :: s in ge.prunes ==> !s.wildcard && s.rpt);
    hide Listed, Addresses, RpFirst, FlagsOk;
    ViewAppend(es, b);
    ViewAppend(es, ge);
    RpFirstAppend(es, b);
    RpFirstAppend(es, ge);
    var p, more := PrunedSources(es), Addresses(ge.prunes, false);
    ConsistentPrefix(p, more, JoinedSources(es + [b]), JoinedRPs(es + [b]));
    assert PrunedSources(es + [b]) == p by { BlankPrunes(p, b); }
  }

  lemma BlankPrunes(p: seq<Address>, b: GroupEntry)
    requires b.prunes == []
    ensures p + Addresses(b.prunes, false) == p
  {
  }

  lemma ConsistentPrefix(p: seq<Address>, more: seq<Address>, joins: seq<Address>, rps: seq<Address>)
    ensures Consistent(joins, rps, p + more) ==> Consistent(joins, rps, p)
  {
    if NoDuplicates(p + more) {
      assert forall i :: 0 <= i < |p| ==> (p + more)[i] == p[i];
    }
    assert forall x :: x in p ==> x in p + more;
  }

  // ---- From updates to configurations ----

  // There is a converter for each group seen so far, which has seen its entries.
  ghost predicate Converting(cvmap: map<Address, GroupEntryConverter>, us: seq<Update>)
    reads cvmap.Values
  {
    && (forall a :: a in cvmap <==> EntriesOf(a, us) != [])
    && (forall a :: a in cvmap ==>
          cvmap[a].group == a && cvmap[a].Valid() && cvmap[a].Seen == EntriesOf(a, us))
  }

  lemma EntriesOfOneMore(a: Address, us: seq<Update>, u: Update, e: GroupEntry)
    ensures EntriesOf(a, us + [u + [e]]) == EntriesOf(a, us + [u]) + (if e.group == a then [e] else [])
  {
    EntriesOfAppend(a, us, [u]);
    EntriesOfAppend(a, us, [u + [e]]);
    EntriesInAppend(a, u, e);
    EntriesOfOne(a, u);
    EntriesOfOne(a, u + [e]);
    hide EntriesOf, EntriesIn;
    assert e.group != a ==> EntriesIn(a, u) + [] == EntriesIn(a, u);
  }

  lemma EntriesOfOne(a: Address, u: Update)
    ensures EntriesOf(a, [u]) == EntriesIn(a, u)
  {
    assert [u][1..] == [];
  }

  method AddEntry(cvmap: map<Address, GroupEntryConverter>, ge: GroupEntry, ghost us: seq<Update>, ghost u: Update)
    returns (cvmap': map<Address, GroupEntryConverter>)
    requires Converting(cvmap, us + [u])
    modifies cvmap.Values
    ensures Converting(cvmap', us + [u + [ge]])
    ensures forall c :: c in cvmap'.Values ==> c in cvmap.Values || fresh(c)
  {
    hide EntriesOf, Accepted, Listed;
    var maddr := ge.group;
    cvmap' := cvmap;
    if maddr !in cvmap {
      var cv := new GroupEntryConverter(maddr);
      cvmap' := cvmap[maddr := cv];
      assert EntriesOf(maddr, us + [u]) == [];
    }
    var cv := cvmap'[maddr];
    assert forall a :: a in cvmap' && a != maddr ==> cvmap'[a] != cv;
    cv.Add(ge);
    forall a: Address
      ensures EntriesOf(a, us + [u + [ge]]) == EntriesOf(a, us + [u]) + (if ge.group == a then [ge] else [])
    {
      EntriesOfOneMore(a, us, u, ge);
    }
  }

  ghost predicate AllAccepted(addrs: set<Address>, us: seq<Update>) {
    forall a :: a in addrs ==> Accepted(EntriesOf(a, us))
  }

  ghost function ReadAll(addrs: set<Address>, us: seq<Update>): map<Address, ReadGroup> {
    map a | a in addrs :: Read(EntriesOf(a, us))
  }

  lemma ReadMore(addrs: set<Address>, a: Address, us: seq<Update>)
    ensures AllAccepted(addrs + {a}, us) <==> AllAccepted(addrs, us) && Accepted(EntriesOf(a, us))
    ensures ReadAll(addrs + {a}, us) == ReadAll(addrs, us)[a := Read(EntriesOf(a, us))]
  {
    hide Accepted, Read, EntriesOf;
  }

  lemma ReadNone(us: seq<Update>)
    ensures AllAccepted({}, us) && ReadAll({}, us) == map[]
  {
  }

  // None is the failure result.
  method ConvertAll(cvmap: map<Address, GroupEntryConverter>, ghost us: seq<Update>)
    returns (r: Option<map<Address, ReadGroup>>)
    requires Converting(cvmap, us)
    ensures r.Some? <==> AllAccepted(cvmap.Keys, us)
    ensures r.Some? ==> r.value == ReadAll(cvmap.Keys, us)
  {
    hide EntriesOf, Accepted, Listed, Read, AllAccepted, ReadAll;
    var todo, jpCfg, errors := cvmap.Keys, map[], false;
    ghost var done := {};
    ReadNone(us);
    while todo != {}
      invariant done + todo == cvmap.Keys
      invariant errors <==> !AllAccepted(done, us)
      invariant !errors ==> jpCfg == ReadAll(done, us)
      decreases |todo|
    {
      var a :| a in todo;
      ReadMore(done, a, us);
      todo, done := todo - {a}, done + {a};
      var c := cvmap[a].Convert();
      if c.Some? {
        jpCfg := jpCfg[a := c.value];
      } else {
        errors := true;
      }
    }
    assert done == cvmap.Keys;
    if errors {
      return None;
    }
    return Some(jpCfg);
  }

  method ConvertUpdates(us: seq<Update>) returns (r: Option<map<Address, ReadGroup>>)
    ensures r.Some? <==> AllAccepted(GroupsOf(us), us)
    ensures r.Some? ==> r.value == ReadAll(GroupsOf(us), us)
  {
    hide EntriesOf, Accepted, Listed, Read;
    var cvmap: map<Address, GroupEntryConverter> := map[];
    NoUpdates();
    for i := 0 to |us|
      invariant Converting(cvmap, us[..i])
      invariant forall c :: c in cvmap.Values ==> fresh(c)
    {
      BlankUpdate(us[..i]);
      for j := 0 to |us[i]|
        invariant Converting(cvmap, us[..i] + [us[i][..j]])
        invariant forall c :: c in cvmap.Values ==> fresh(c)
      {
        assert us[i][..j + 1] == us[i][..j] + [us[i][j]];
        cvmap := AddEntry(cvmap, us[i][j], us[..i], us[i][..j]);
      }
      assert us[i][..|us[i]|] == us[i];
      assert us[..i + 1] == us[..i] + [us[i]];
    }
    assert us[..|us|] == us;
    forall a: Address
      ensures a in cvmap <==> a in GroupsOf(us)
    {
      GroupsOfEntries(a, us);
    }
    assert cvmap.Keys == GroupsOf(us);
    r := ConvertAll(cvmap, us);
  }

  lemma NoUpdates()
    ensures forall a :: EntriesOf(a, []) == []
  {
  }

  lemma BlankUpdate(us: seq<Update>)
    ensures forall a :: EntriesOf(a, us + [[]]) == EntriesOf(a, us)
  {
    forall a: Address
      ensures EntriesOf(a, us + [[]]) == EntriesOf(a, us)
    {
      EntriesOfAppend(a, us, [[]]);
      EntriesOfOne(a, []);
      assert EntriesOf(a, us) + [] == EntriesOf(a, us);
    }
  }

  // ---- The comparison ----

  method VecSet(v: seq<Address>) returns (items: set<Address>)
    ensures items == Elements(v)
  {
    items := {};
    for i := 0 to |v|
      invariant items == Elements(v[..i])
    {
      assert v[..i + 1] == v[..i] + [v[i]];
      items := items + {v[i]};
    }
    assert v[..|v|] == v;
  }

  // The elements of a that b has not.
  method Difference(a: set<Address>, b: set<Address>) returns (d: set<Address>)
    ensures d == a - b
  {
    d := {};
    var todo := a;
    while todo != {}
      invariant todo <= a && d == (a - todo) - b
      decreases |todo|
    {
      var x :| x in todo;
      todo := todo - {x};
      if x !in b {
        d := d + {x};
      }
    }
  }

  method CompareAddrSets(a: set<Address>, b: set<Address>) returns (missing: set<Address>, extraneous: set<Address>)
    ensures missing == a - b && extraneous == b - a
  {
    missing := Difference(a, b);
    extraneous := Difference(b, a);
  }

  ghost predicate Same(orig: GroupConfig, rslt: ReadGroup) {
    && Elements(orig.spt) == rslt.spt
    && (orig.rpt.Some? <==> rslt.rpt.Some?)
    && (orig.rpt.Some? ==>
          && orig.rpt.value.rp == rslt.rpt.value.rp
          && Elements(orig.rpt.value.prunes) == rslt.rpt.value.prunes)
  }

  method CompareGroup(orig: GroupConfig, rslt: ReadGroup) returns (ok: bool)
    ensures ok <==> Same(orig, rslt)
  {
    ok := true;
    var spt := VecSet(orig.spt);
    var mjs, ejs := CompareAddrSets(spt, rslt.spt);
    if mjs != {} {
      ok := false;
    }
    if ejs != {} {
      ok := false;
    }
    if orig.rpt.Some? && rslt.rpt.None? {
      ok := false;
    } else if orig.rpt.None? && rslt.rpt.Some? {
      ok := false;
    } else if orig.rpt.Some? && rslt.rpt.Some? {
      if orig.rpt.value.rp != rslt.rpt.value.rp {
        ok := false;
      }
      var prunes := VecSet(orig.rpt.value.prunes);
      var mps, eps := CompareAddrSets(prunes, rslt.rpt.value.prunes);
      if mps != {} {
        ok := false;
      }
      if eps != {} {
        ok := false;
      }
    }
  }

  method CompareConfigs(orig: map<Address, GroupConfig>, rslt: map<Address, ReadGroup>) returns (ok: bool)
    ensures ok <==> orig.Keys == rslt.Keys && forall a :: a in orig ==> Same(orig[a], rslt[a])
  {
    ok := true;
    var mgs, egs := CompareAddrSets(orig.Keys, rslt.Keys);
    if mgs != {} {
      ok := false;
    }
    if egs != {} {
      ok := false;
    }
    var todo := orig.Keys;
    while todo != {}
      invariant todo <= orig.Keys
      invariant ok <==> orig.Keys == rslt.Keys && forall a :: a in orig && a !in todo ==> Same(orig[a], rslt[a])
      decreases |todo|
    {
      var a :| a in todo;
      todo := todo - {a};
      if a in rslt {
        var r := CompareGroup(orig[a], rslt[a]);
        if !r {
          ok := false;
        }
      }
    }
  }

  method OrigConfigs(cfg: JPConfig) returns (m: map<Address, GroupConfig>)
    ensures m == Configs(cfg)
  {
    m := map[];
    for i := 0 to |cfg|
      invariant m == Configs(cfg[..i])
    {
      assert cfg[..i + 1][..i] == cfg[..i];
      if cfg[i].group !in m {
        m := m[cfg[i].group := cfg[i]];
      }
    }
    assert cfg[..|cfg|] == cfg;
  }

  // An acceptable list of entries reads back as a group that is the same as the
  // original exactly when it asks for what the original asks for.
  lemma SameIffAsks(g: GroupConfig, es: seq<GroupEntry>)
    requires Accepted(es)
    ensures Same(g, Read(es)) <==> Asks(es, g)
  {
    hide Listed;
    var rps := JoinedRPs(es);
    assert rps != [] ==> rps == [rps[0]];
    PrunesNeedRp(es);
  }

  lemma {:induction false} PrunesNeedRp(es: seq<GroupEntry>)
    requires RpFirst(es)
    ensures JoinedRPs(es) == [] ==> PrunedSources(es) == []
  {
    if es != [] {
      var n := |es| - 1;
      PrunesNeedRp(es[..n]);
      assert es == es[..n] + [es[n]];
      ViewAppend(es[..n], es[n]);
    }
  }

  // ---- The same by counting mentions ----

  // The addresses that are mentioned for group a, with the given wildcard bit, as
  // joined or as pruned, in order.
  function Mentioning(ms: seq<Mention>, a: Address, w: bool, pruned: bool): seq<Address> {
    if ms == [] then []
    else
      var m := ms[|ms| - 1];
      Mentioning(ms[..|ms| - 1], a, w, pruned) +
      (if m.group == a && m.source.wildcard == w && m.pruned == pruned then [m.source.addr] else [])
  }

  lemma {:induction false} MentioningSplit(ms: seq<Mention>, ns: seq<Mention>, a: Address, w: bool, pruned: bool)
    ensures Mentioning(ms + ns, a, w, pruned) == Mentioning(ms, a, w, pruned) + Mentioning(ns, a, w, pruned)
  {
    if ns == [] {
      assert ms + ns == ms;
    } else {
      var n := |ns| - 1;
      MentioningSplit(ms, ns[..n], a, w, pruned);
      assert (ms + ns)[..|ms + ns| - 1] == ms + ns[..n];
    }
  }

  lemma {:induction false} MentioningIn(b: Address, ss: seq<Source>, p: bool, a: Address, w: bool, pruned: bool)
    ensures Mentioning(MentionsIn(b, ss, p), a, w, pruned) == if a == b && p == pruned then Addresses(ss, w) else []
  {
    if ss != [] {
      var n := |ss| - 1;
      MentioningIn(b, ss[..n], p, a, w, pruned);
      assert MentionsIn(b, ss, p)[..n] == MentionsIn(b, ss[..n], p);
    }
  }

  lemma MentioningEntry(ms: seq<Mention>, e: GroupEntry, a: Address, w: bool, pruned: bool)
    ensures Mentioning(ms + EntryMentions(e), a, w, pruned)
         == Mentioning(ms, a, w, pruned) + (if e.group == a then Addresses(Side(e, pruned), w) else [])
  {
    hide Mentioning, Addresses, MentionsIn;
    MentioningSplit(ms, EntryMentions(e), a, w, pruned);
    MentioningSplit(MentionsIn(e.group, e.joins, false), MentionsIn(e.group, e.prunes, true), a, w, pruned);
    MentioningIn(e.group, e.joins, false, a, w, pruned);
    MentioningIn(e.group, e.prunes, true, a, w, pruned);
  }

  // Every prune of group a has an RP join of the group before it.
  ghost predicate RpFirstAt(ms: seq<Mention>, a: Address) {
    forall i :: 0 <= i < |ms| && ms[i].pruned && ms[i].group == a ==> Mentioning(ms[..i], a, true, false) != []
  }

  ghost predicate ProperAt(ms: seq<Mention>, a: Address) {
    forall m :: m in ms && m.group == a ==> Mentions.Proper(m)
  }

  // The entries of group a say the same as the mentions of it.
  ghost predicate Agrees(a: Address, es: seq<GroupEntry>, ms: seq<Mention>) {
    && (forall w, pruned :: Listed(es, pruned, w) == Mentioning(ms, a, w, pruned))
    && ((forall e :: e in es ==> FlagsOk(e)) <==> ProperAt(ms, a))
    && (RpFirst(es) <==> RpFirstAt(ms, a))
  }

  lemma ProperAtSplit(ms: seq<Mention>, ns: seq<Mention>, a: Address)
    ensures ProperAt(ms + ns, a) <==> ProperAt(ms, a) && ProperAt(ns, a)
  {
    assert forall m :: m in ms + ns <==> m in ms || m in ns;
  }

  lemma ProperEntry(e: GroupEntry, a: Address)
    ensures ProperAt(EntryMentions(e), a) <==> e.group == a ==> FlagsOk(e)
  {
    var js, ps := MentionsIn(e.group, e.joins, false), MentionsIn(e.group, e.prunes, true);
    ProperAtSplit(js, ps, a);
    assert forall i :: 0 <= i < |js| ==> js[i] in js && e.joins[i] in e.joins;
    assert forall i :: 0 <= i < |ps| ==> ps[i] in ps && e.prunes[i] in e.prunes;
    if e.group == a && ProperAt(js, a) && ProperAt(ps, a) {
      forall s | s in e.joins
        ensures s.wildcard == s.rpt
      {
        var i :| 0 <= i < |e.joins| && e.joins[i] == s;
        assert js[i] == Mention(a, s, false);
      }
      forall s | s in e.prunes
        ensures !s.wildcard && s.rpt
      {
        var i :| 0 <= i < |e.prunes| && e.prunes[i] == s;
        assert ps[i] == Mention(a, s, true);
      }
    }
  }

  // Joins need no RP join before them.
  lemma RpFirstJoins(ms: seq<Mention>, b: Address, ss: seq<Source>, a: Address)
    ensures RpFirstAt(ms + MentionsIn(b, ss, false), a) <==> RpFirstAt(ms, a)
  {
    var ns := ms + MentionsIn(b, ss, false);
    assert forall i :: 0 <= i < |ms| ==> ns[i] == ms[i] && ns[..i] == ms[..i];
    assert forall i :: |ms| <= i < |ns| ==> !ns[i].pruned;
  }

  lemma RpFirstPrunes(ms: seq<Mention>, b: Address, ss: seq<Source>, a: Address)
    ensures RpFirstAt(ms + MentionsIn(b, ss, true), a) <==>
              RpFirstAt(ms, a) && (a == b && ss != [] ==> Mentioning(ms, a, true, false) != [])
  {
    var ps := MentionsIn(b, ss, true);
    var ns := ms + ps;
    assert forall i :: 0 <= i < |ms| ==> ns[i] == ms[i] && ns[..i] == ms[..i];
    forall i | |ms| <= i < |ns|
      ensures Mentioning(ns[..i], a, true, false) == Mentioning(ms, a, true, false)
      ensures ns[i].pruned && ns[i].group == b
    {
      var k := i - |ms|;
      assert ns[..i] == ms + MentionsIn(b, ss[..k], true);
      MentioningSplit(ms, MentionsIn(b, ss[..k], true), a, true, false);
      MentioningIn(b, ss[..k], true, a, true, false);
    }
    if ss != [] && RpFirstAt(ns, a) && a == b {
      assert ns[|ms|].pruned;
    }
  }

  lemma RpFirstEntry(ms: seq<Mention>, e: GroupEntry, a: Address)
    ensures RpFirstAt(ms + EntryMentions(e), a) <==>
              RpFirstAt(ms, a)
              && (e.group == a && e.prunes != [] ==> Mentioning(ms + EntryMentions(e), a, true, false) != [])
  {
    var js, ps := MentionsIn(e.group, e.joins, false), MentionsIn(e.group, e.prunes, true);
    hide Mentioning, RpFirstAt, MentionsIn;
    assert ms + EntryMentions(e) == ms + js + ps;
    RpFirstJoins(ms, e.group, e.joins, a);
    RpFirstPrunes(ms + js, e.group, e.prunes, a);
    MentioningSplit(ms + js, ps, a, true, false);
    MentioningIn(e.group, e.prunes, true, a, true, false);
  }

  lemma AgreesMore(a: Address, es: seq<GroupEntry>, ms: seq<Mention>, e: GroupEntry)
    requires Agrees(a, es, ms)
    ensures Agrees(a, es + (if e.group == a then [e] else []), ms + EntryMentions(e))
  {
    hide Listed, Addresses, Mentioning, RpFirst, RpFirstAt, FlagsOk, ProperAt, EntryMentions;
    var fs := es + (if e.group == a then [e] else []);
    forall w: bool, pruned: bool
      ensures Listed(fs, pruned, w) == Mentioning(ms + EntryMentions(e), a, w, pruned)
    {
      MentioningEntry(ms, e, a, w, pruned);
      ListedAppend(es, [e], pruned, w);
      ListedOne(e, pruned, w);
      assert e.group != a ==> fs == es;
    }
    assert e.group != a ==> fs == es;
    ProperAtSplit(ms, EntryMentions(e), a);
    ProperEntry(e, a);
    assert forall x :: x in es + [e] <==> x in es || x == e;
    RpFirstEntry(ms, e, a);
    RpFirstAppend(es, e);
  }

  lemma AgreesNone(a: Address)
    ensures Agrees(a, [], [])
  {
  }

  lemma MentionsMore(us: seq<Update>, u: Update, e: GroupEntry)
    ensures AllMentions(us + [u + [e]]) == AllMentions(us + [u]) + EntryMentions(e)
    ensures AllMentions(us + [[]]) == AllMentions(us)
  {
    assert (us + [u + [e]])[..|us|] == us && (us + [u])[..|us|] == us && (us + [[]])[..|us|] == us;
    assert (u + [e])[..|u|] == u;
    hide EntryMentions;
    assert UpdateMentions(u + [e]) == UpdateMentions(u) + EntryMentions(e);
    assert AllMentions(us) + UpdateMentions([]) == AllMentions(us);
  }

  lemma {:induction false} AgreesLast(a: Address, us: seq<Update>, u: Update)
    requires Agrees(a, EntriesOf(a, us), AllMentions(us))
    ensures Agrees(a, EntriesOf(a, us + [u]), AllMentions(us + [u]))
  {
    hide Agrees, EntriesOf, AllMentions, EntryMentions;
    if u == [] {
      BlankUpdate(us);
      MentionsMore(us, [], GroupEntry(a, [], []));
    } else {
      var v, e := u[..|u| - 1], u[|u| - 1];
      assert u == v + [e];
      AgreesLast(a, us, v);
      EntriesOfOneMore(a, us, v, e);
      MentionsMore(us, v, e);
      AgreesMore(a, EntriesOf(a, us + [v]), AllMentions(us + [v]), e);
    }
  }

  lemma {:induction false} AgreesAll(a: Address, us: seq<Update>)
    ensures Agrees(a, EntriesOf(a, us), AllMentions(us))
  {
    if us == [] {
      AgreesNone(a);
    } else {
      hide *;
      var n := |us| - 1;
      AgreesAll(a, us[..n]);
      AgreesLast(a, us[..n], us[n]);
      assert us == us[..n] + [us[n]];
    }
  }

  // ---- Counting ----

  // With proper bits, the mentions of a source are counted by its address.
  lemma {:induction false} CountMentioning(ms: seq<Mention>, a: Address, s: Address, w: bool, pruned: bool)
    requires ProperAt(ms, a) && !(w && pruned)
    ensures multiset(Mentioning(ms, a, w, pruned))[s] == multiset(ms)[Mention(a, Source(s, w, w || pruned), pruned)]
  {
    if ms != [] {
      var n := |ms| - 1;
      var p, m := ms[..n], ms[n];
      assert ms == p + [m];
      assert forall x :: x in p ==> x in ms;
      assert m in ms;
      CountMentioning(p, a, s, w, pruned);
    }
  }

  // What one group should be mentioned with.
  ghost predicate WantedOf(g: GroupConfig, m: Mention) {
    if m.pruned then !m.source.wildcard && m.source.rpt && g.rpt.Some? && m.source.addr in g.rpt.value.prunes
    else if m.source.wildcard then m.source.rpt && g.rpt.Some? && m.source.addr == g.rpt.value.rp
    else !m.source.rpt && m.source.addr in g.spt
  }

  lemma WantedIsOf(cfg: JPConfig, g: GroupConfig, m: Mention)
    requires DistinctGroups(cfg) && g in cfg && m.group == g.group
    ensures WantedMention(cfg, m) <==> WantedOf(g, m)
  {
  }

  ghost predicate RpBeforeAt(ms: seq<Mention>, a: Address) {
    forall i, j :: 0 <= i < j < |ms| && ms[i].pruned && ms[i].group == a && ms[j].group == a ==>
      ms[j].pruned || !ms[j].source.wildcard
  }

  // What is mentioned for one group is what is wanted of it, once each.
  ghost predicate CountedAt(g: GroupConfig, ms: seq<Mention>) {
    forall m: Mention :: m.group == g.group ==> multiset(ms)[m] == if WantedOf(g, m) then 1 else 0
  }

  lemma {:induction false} MentioningHas(ms: seq<Mention>, a: Address, w: bool, s: Address)
    ensures s in Mentioning(ms, a, w, false) <==>
              exists k :: 0 <= k < |ms| && ms[k].group == a && !ms[k].pruned && ms[k].source.wildcard == w
                          && ms[k].source.addr == s
  {
    if ms != [] {
      var n := |ms| - 1;
      MentioningHas(ms[..n], a, w, s);
      assert forall k :: 0 <= k < n ==> ms[..n][k] == ms[k];
    }
  }

  // If the RP is joined once, prunes have it before them iff none is before it.
  lemma RpFirstIffBefore(ms: seq<Mention>, a: Address)
    requires |Mentioning(ms, a, true, false)| <= 1
    ensures RpFirstAt(ms, a) ==> RpBeforeAt(ms, a)
    ensures RpBeforeAt(ms, a) && Mentioning(ms, a, true, false) != [] ==> RpFirstAt(ms, a)
  {
    if RpFirstAt(ms, a) {
      forall i, j | 0 <= i < j < |ms| && ms[i].pruned && ms[i].group == a && ms[j].group == a
        ensures ms[j].pruned || !ms[j].source.wildcard
      {
        JoinsTwice(ms, a, i, j);
      }
    }
    if RpBeforeAt(ms, a) && Mentioning(ms, a, true, false) != [] {
      forall i | 0 <= i < |ms| && ms[i].pruned && ms[i].group == a
        ensures Mentioning(ms[..i], a, true, false) != []
      {
        JoinedEarlier(ms, a, i);
      }
    }
  }

  lemma JoinsTwice(ms: seq<Mention>, a: Address, i: nat, j: nat)
    requires i < j < |ms| && Mentioning(ms[..i], a, true, false) != [] && |Mentioning(ms, a, true, false)| <= 1
    ensures !(ms[j].group == a && !ms[j].pruned && ms[j].source.wildcard)
  {
    var s := ms[..j];
    assert s == ms[..i] + ms[i..j];
    assert ms == s + ms[j..];
    MentioningSplit(ms[..i], ms[i..j], a, true, false);
    MentioningSplit(s, ms[j..], a, true, false);
    if ms[j].group == a && !ms[j].pruned && ms[j].source.wildcard {
      assert ms[j..][0] == ms[j];
      MentioningHas(ms[j..], a, true, ms[j].source.addr);
    }
  }

  lemma JoinedEarlier(ms: seq<Mention>, a: Address, i: nat)
    requires i < |ms| && ms[i].pruned && ms[i].group == a
    requires RpBeforeAt(ms, a) && Mentioning(ms, a, true, false) != []
    ensures Mentioning(ms[..i], a, true, false) != []
  {
    var s := Mentioning(ms, a, true, false)[0];
    MentioningHas(ms, a, true, s);
    var k :| 0 <= k < |ms| && ms[k].group == a && !ms[k].pruned && ms[k].source.wildcard && ms[k].source.addr == s;
    assert k < i;
    MentioningHas(ms[..i], a, true, s);
    assert ms[..i][k] == ms[k];
  }

  // Faultless entries that ask for a group mention it exactly.
  lemma AskedIsCounted(g: GroupConfig, es: seq<GroupEntry>, ms: seq<Mention>)
    requires GroupLoaded(g) && Agrees(g.group, es, ms)
    requires Accepted(es) && Asks(es, g)
    ensures CountedAt(g, ms) && RpBeforeAt(ms, g.group)
  {
    hide Listed, Mentioning, RpFirstAt;
    PrunesNeedRp(es);
    RpFirstIffBefore(ms, g.group);
    CountOnce(JoinedSources(es));
    CountOnce(JoinedRPs(es));
    CountOnce(PrunedSources(es));
    assert multiset([if g.rpt.Some? then g.rpt.value.rp else 0])[if g.rpt.Some? then g.rpt.value.rp else 0] == 1;
    forall m: Mention | m.group == g.group
      ensures multiset(ms)[m] == if WantedOf(g, m) then 1 else 0
    {
      if Mentions.Proper(m) {
        CountMentioning(ms, g.group, m.source.addr, m.source.wildcard, m.pruned);
        ElementsHave(es, g, m.source.addr);
        assert m == Mention(g.group, Source(m.source.addr, m.source.wildcard, m.source.wildcard || m.pruned), m.pruned);
      } else {
        CountIn(ms, m);
      }
    }
  }

  lemma ElementsHave(es: seq<GroupEntry>, g: GroupConfig, s: Address)
    requires Asks(es, g)
    ensures s in JoinedSources(es) <==> s in g.spt
    ensures g.rpt.Some? ==> (s in PrunedSources(es) <==> s in g.rpt.value.prunes)
    ensures s in JoinedRPs(es) <==> g.rpt.Some? && s == g.rpt.value.rp
  {
    assert s in JoinedSources(es) <==> s in Elements(JoinedSources(es));
    assert s in g.spt <==> s in Elements(g.spt);
    assert g.rpt.Some? ==> (s in PrunedSources(es) <==> s in Elements(PrunedSources(es)));
    assert g.rpt.Some? ==> (s in g.rpt.value.prunes <==> s in Elements(g.rpt.value.prunes));
  }

  lemma OneElement(s: seq<Address>, x: Address)
    requires NoDuplicates(s) && forall y :: y in s <==> y == x
    ensures s == [x]
  {
    assert x in s;
    EachIn(s);
    FirstTwo(s);
  }

  lemma FirstTwo<T>(s: seq<T>)
    requires NoDuplicates(s)
    ensures |s| > 1 ==> s[0] != s[1]
  {
  }

  lemma EachIn<T>(s: seq<T>)
    ensures forall i :: 0 <= i < |s| ==> s[i] in s
  {
  }

  lemma CountedIsAsked(g: GroupConfig, es: seq<GroupEntry>, ms: seq<Mention>)
    requires GroupLoaded(g) && Agrees(g.group, es, ms)
    requires CountedAt(g, ms) && RpBeforeAt(ms, g.group)
    ensures Accepted(es) && Asks(es, g)
  {
    hide Listed, Mentioning, RpFirstAt, Consistent;
    forall m | m in ms && m.group == g.group
      ensures Mentions.Proper(m)
    {
      CountIn(ms, m);
    }
    forall s: Address
      ensures multiset(JoinedSources(es))[s] == if s in g.spt then 1 else 0
      ensures multiset(JoinedRPs(es))[s] == if g.rpt.Some? && s == g.rpt.value.rp then 1 else 0
      ensures multiset(PrunedSources(es))[s] == if g.rpt.Some? && s in g.rpt.value.prunes then 1 else 0
    {
      CountMentioning(ms, g.group, s, false, false);
      CountMentioning(ms, g.group, s, true, false);
      CountMentioning(ms, g.group, s, false, true);
    }
    hide CountedAt, Agrees;
    CountedViews(es, g);
    assert Agrees(g.group, es, ms);
    CountedFirst(es, g, ms);
  }

  lemma CountedFirst(es: seq<GroupEntry>, g: GroupConfig, ms: seq<Mention>)
    requires Agrees(g.group, es, ms) && RpBeforeAt(ms, g.group) && ProperAt(ms, g.group)
    requires JoinedRPs(es) == if g.rpt.Some? then [g.rpt.value.rp] else []
    requires g.rpt.None? ==> PrunedSources(es) == []
    ensures RpFirst(es) && forall e :: e in es ==> FlagsOk(e)
  {
    hide Listed, Mentioning, FlagsOk;
    RpFirstIffBefore(ms, g.group);
    if g.rpt.None? {
      forall i | 0 <= i < |ms| && ms[i].pruned && ms[i].group == g.group
        ensures false
      {
        assert ms[i] in ms;
        CountMentioning(ms, g.group, ms[i].source.addr, false, true);
        CountIn(ms, ms[i]);
      }
    }
  }

  lemma CountedViews(es: seq<GroupEntry>, g: GroupConfig)
    requires GroupLoaded(g)
    requires forall s :: multiset(JoinedSources(es))[s] == if s in g.spt then 1 else 0
    requires forall s :: multiset(JoinedRPs(es))[s] == if g.rpt.Some? && s == g.rpt.value.rp then 1 else 0
    requires forall s :: multiset(PrunedSources(es))[s] == if g.rpt.Some? && s in g.rpt.value.prunes then 1 else 0
    ensures Consistent(JoinedSources(es), JoinedRPs(es), PrunedSources(es)) && Asks(es, g)
    ensures JoinedRPs(es) == if g.rpt.Some? then [g.rpt.value.rp] else []
    ensures g.rpt.None? ==> PrunedSources(es) == []
  {
    hide Listed;
    CountOnce(JoinedSources(es));
    CountOnce(JoinedRPs(es));
    CountOnce(PrunedSources(es));
    if g.rpt.Some? {
      OneElement(JoinedRPs(es), g.rpt.value.rp);
    } else {
      EachIn(JoinedRPs(es));
      EachIn(PrunedSources(es));
    }
  }

  lemma {:induction false} ConfigsDistinct(cfg: JPConfig)
    requires DistinctGroups(cfg)
    ensures Configs(cfg).Keys == GroupSet(cfg)
    ensures forall g :: g in cfg ==> g.group in Configs(cfg) && Configs(cfg)[g.group] == g
  {
    if cfg != [] {
      var n := |cfg| - 1;
      ConfigsDistinct(cfg[..n]);
      assert cfg == cfg[..n] + [cfg[n]];
    }
  }

  // A group without entries has no mentions.
  lemma {:induction false} NotMentioned(ms: seq<Mention>, m: Mention)
    requires Mentioning(ms, m.group, m.source.wildcard, m.pruned) == []
    ensures m !in ms
  {
    if ms != [] {
      var n := |ms| - 1;
      NotMentioned(ms[..n], m);
      assert ms == ms[..n] + [ms[n]];
    }
  }

  lemma VerifiedIsExact(cfg: JPConfig, us: seq<Update>)
    requires Loaded(cfg) && Verified(cfg, us)
    ensures Exact(cfg, us)
  {
    hide Accepted, Asks, Agrees, EntriesOf, AllMentions, WantedMention, WantedOf, Mentioning, Listed;
    ConfigsDistinct(cfg);
    var ms := AllMentions(us);
    forall g | g in cfg
      ensures CountedAt(g, ms) && RpBeforeAt(ms, g.group)
    {
      AgreesAll(g.group, us);
      AskedIsCounted(g, EntriesOf(g.group, us), ms);
    }
    forall m: Mention
      ensures multiset(ms)[m] == if WantedMention(cfg, m) then 1 else 0
      ensures m in ms ==> m.group in GroupSet(cfg)
    {
      if m.group in GroupSet(cfg) {
        var g :| g in cfg && g.group == m.group;
        WantedIsOf(cfg, g, m);
      } else {
        OtherGroup(cfg, us, m);
      }
    }
    forall i, j | 0 <= i < j < |ms| && ms[i].pruned && ms[i].group == ms[j].group
      ensures ms[j].pruned || !ms[j].source.wildcard
    {
      assert ms[i] in ms;
      var g :| g in cfg && g.group == ms[i].group;
      assert RpBeforeAt(ms, g.group);
    }
  }

  // A group that is not configured, and so has no entry, is neither mentioned nor wanted.
  lemma OtherGroup(cfg: JPConfig, us: seq<Update>, m: Mention)
    requires m.group !in GroupSet(cfg) && GroupsOf(us) == GroupSet(cfg)
    ensures m !in AllMentions(us) && multiset(AllMentions(us))[m] == 0 && !WantedMention(cfg, m)
  {
    GroupsOfEntries(m.group, us);
    AgreesAll(m.group, us);
    assert Listed([], m.pruned, m.source.wildcard) == [];
    hide Mentioning, AllMentions;
    NotMentioned(AllMentions(us), m);
    CountIn(AllMentions(us), m);
  }

  lemma ExactIsVerified(cfg: JPConfig, us: seq<Update>)
    requires Loaded(cfg) && Exact(cfg, us)
    ensures Verified(cfg, us)
  {
    hide Accepted, Asks, Agrees, EntriesOf, AllMentions, WantedMention, WantedOf;
    ConfigsDistinct(cfg);
    var ms := AllMentions(us);
    forall a | a in Configs(cfg)
      ensures Accepted(EntriesOf(a, us)) && Asks(EntriesOf(a, us), Configs(cfg)[a])
    {
      var g :| g in cfg && g.group == a;
      forall m: Mention | m.group == a
        ensures multiset(ms)[m] == if WantedOf(g, m) then 1 else 0
      {
        WantedIsOf(cfg, g, m);
      }
      AgreesAll(a, us);
      CountedIsAsked(g, EntriesOf(a, us), ms);
    }
  }

  // The check is exact.  It succeeds for an arbitrary list of updates if and only if
  // they are without fault and ask for what is configured; for a loaded configuration
  // that is if and only if each configured source, RP and prune is listed once and
  // nothing else is, and a neighbor that receives updates that pass, one after the
  // other, is then in exactly the configured state.
  method VerifyUpdates(cfg: JPConfig, us: seq<Update>) returns (ok: bool)
    ensures ok <==> Verified(cfg, us)
    ensures Loaded(cfg) ==> (ok <==> Exact(cfg, us))
    ensures Loaded(cfg) && ok ==> ReceiveAll(us) == Wanted(cfg)
  {
    hide EntriesOf, Accepted, Listed, Read, GroupsOf, Exact, ReceiveAll;
    var r := ConvertUpdates(us);
    if Loaded(cfg) {
      VerifiedIffExact(cfg, us);
    }
    if r.None? {
      return false;
    }
    var orig := OrigConfigs(cfg);
    forall a | a in GroupsOf(us) && a in orig
      ensures Same(orig[a], Read(EntriesOf(a, us))) <==> Asks(EntriesOf(a, us), orig[a])
    {
      SameIffAsks(orig[a], EntriesOf(a, us));
    }
    ok := CompareConfigs(orig, r.value);
  }

  lemma VerifiedIffExact(cfg: JPConfig, us: seq<Update>)
    requires Loaded(cfg)
    ensures Verified(cfg, us) <==> Exact(cfg, us)
    ensures Verified(cfg, us) ==> ReceiveAll(us) == Wanted(cfg)
  {
    hide Verified, Exact, GroupLoaded;
    if Verified(cfg, us) {
      VerifiedIsExact(cfg, us);
      ExactTakesEffect(cfg, us);
    }
    if Exact(cfg, us) {
      ExactIsVerified(cfg, us);
    }
  }
}
