// What a list of updates says, source by source: an independent account of the two
// sanity checks, by counting, and of what updates that pass them do to a neighbor.
module Mentions {
  import opened JoinPrune
  import opened Conservation
  import opened Neighbor

  // One listed source: where, what, and whether it is joined or pruned.
  datatype Mention = Mention(group: Address, source: Source, pruned: bool)

  // ---- The mentions of updates, in the order in which they are handled ----

  function MentionsIn(a: Address, ss: seq<Source>, pruned: bool): seq<Mention> {
    seq(|ss|, i requires 0 <= i < |ss| => Mention(a, ss[i], pruned))
  }

  function EntryMentions(e: GroupEntry): seq<Mention> {
    MentionsIn(e.group, e.joins, false) + MentionsIn(e.group, e.prunes, true)
  }

  function UpdateMentions(u: Update): seq<Mention> {
    if u == [] then [] else UpdateMentions(u[..|u| - 1]) + EntryMentions(u[|u| - 1])
  }

  function AllMentions(us: seq<Update>): seq<Mention> {
    if us == [] then [] else AllMentions(us[..|us| - 1]) + UpdateMentions(us[|us| - 1])
  }

  // ---- What should be mentioned ----

  ghost predicate WantedJoin(cfg: JPConfig, m: Mention) {
    !m.pruned && !m.source.wildcard && !m.source.rpt
    && exists g :: g in cfg && g.group == m.group && m.source.addr in g.spt
  }

  ghost predicate WantedRP(cfg: JPConfig, m: Mention) {
    !m.pruned && m.source.wildcard && m.source.rpt
    && exists g :: g in cfg && g.group == m.group && g.rpt.Some? && g.rpt.value.rp == m.source.addr
  }

  ghost predicate WantedPruned(cfg: JPConfig, m: Mention) {
    m.pruned && !m.source.wildcard && m.source.rpt
    && exists g :: g in cfg && g.group == m.group && g.rpt.Some? && m.source.addr in g.rpt.value.prunes
  }

  ghost predicate WantedMention(cfg: JPConfig, m: Mention) {
    WantedJoin(cfg, m) || WantedRP(cfg, m) || WantedPruned(cfg, m)
  }

  // No source of a group is pruned before its RP is joined.
  ghost predicate RpBefore(ms: seq<Mention>) {
    forall i, j :: 0 <= i < j < |ms| && ms[i].pruned && ms[i].group == ms[j].group ==>
      ms[j].pruned || !ms[j].source.wildcard
  }

  // Exactly the configured groups have entries, and over all updates each configured
  // source, RP and prune is listed once and nothing else is.
  ghost predicate Exact(cfg: JPConfig, us: seq<Update>) {
    && GroupsOf(us) == GroupSet(cfg)
    && (forall m :: multiset(AllMentions(us))[m] == if WantedMention(cfg, m) then 1 else 0)
    && RpBefore(AllMentions(us))
  }

  // ---- The neighbor, mention by mention ----

  function OnMention(st: State, m: Mention): State {
    if m.pruned then OnPrune(st, m.group, m.source) else OnJoin(st, m.group, m.source)
  }

  function OnMentions(st: State, ms: seq<Mention>): State {
    if ms == [] then st else OnMention(OnMentions(st, ms[..|ms| - 1]), ms[|ms| - 1])
  }

  lemma {:induction false} OnMentionsSplit(st: State, a: seq<Mention>, b: seq<Mention>)
    ensures OnMentions(st, a + b) == OnMentions(OnMentions(st, a), b)
  {
    hide OnMention;
    if b == [] {
      assert a + b == a;
    } else {
      var n := |b| - 1;
      OnMentionsSplit(st, a, b[..n]);
      assert (a + b)[..|a + b| - 1] == a + b[..n];
    }
  }

  lemma {:induction false} OnJoinsIs(st: State, a: Address, ss: seq<Source>)
    ensures OnJoins(st, a, ss) == OnMentions(st, MentionsIn(a, ss, false))
  {
    hide OnJoin;
    if ss != [] {
      var n := |ss| - 1;
      OnJoinsIs(st, a, ss[..n]);
      assert MentionsIn(a, ss, false)[..n] == MentionsIn(a, ss[..n], false);
    }
  }

  lemma {:induction false} OnPrunesIs(st: State, a: Address, ss: seq<Source>)
    ensures OnPrunes(st, a, ss) == OnMentions(st, MentionsIn(a, ss, true))
  {
    hide OnPrune;
    if ss != [] {
      var n := |ss| - 1;
      OnPrunesIs(st, a, ss[..n]);
      assert MentionsIn(a, ss, true)[..n] == MentionsIn(a, ss[..n], true);
    }
  }

  lemma {:induction false} OnEntriesIs(st: State, u: Update)
    ensures OnEntries(st, u) == OnMentions(st, UpdateMentions(u))
  {
    if u != [] {
      var v, e := u[..|u| - 1], u[|u| - 1];
      OnEntriesIs(st, v);
      OnJoinsIs(OnEntries(st, v), e.group, e.joins);
      OnPrunesIs(OnJoins(OnEntries(st, v), e.group, e.joins), e.group, e.prunes);
      hide OnMentions, OnJoins, OnPrunes, MentionsIn;
      OnMentionsSplit(OnEntries(st, v), MentionsIn(e.group, e.joins, false), MentionsIn(e.group, e.prunes, true));
      OnMentionsSplit(st, UpdateMentions(v), EntryMentions(e));
    }
  }

  // All of n messages, one after the other.
  function InOrder(n: nat): seq<nat> {
    seq(n, i => i)
  }

  // The state of a neighbor that had none, after all updates one after the other.
  function ReceiveAll(us: seq<Update>): State {
    ReceiveRun(NO_STATE, us, InOrder(|us|))
  }

  // If no message leaves a prune temporary, the end of a message changes nothing.
  lemma {:induction false} ReceiveInOrder(st: State, us: seq<Update>, n: nat)
    requires n <= |us|
    requires forall i :: 0 <= i <= n ==> OnMentions(st, AllMentions(us[..i])).tmp == {}
    ensures forall k :: 0 <= k < n ==> InOrder(n)[k] < |us|
    ensures ReceiveRun(st, us, InOrder(n)) == OnMentions(st, AllMentions(us[..n]))
  {
    if n > 0 {
      ReceiveInOrder(st, us, n - 1);
      assert InOrder(n)[..n - 1] == InOrder(n - 1);
      assert us[..n][..n - 1] == us[..n - 1];
      var before, u := AllMentions(us[..n - 1]), us[n - 1];
      OnEntriesIs(OnMentions(st, before), u);
      OnMentionsSplit(st, before, UpdateMentions(u));
      hide OnEntries, OnMentions, UpdateMentions, ReceiveRun;
      ReceiveRunLast(st, us, InOrder(n));
      assert AllMentions(us[..n]) == before + UpdateMentions(u);
    }
  }

  lemma ReceiveRunLast(st: State, us: seq<Update>, run: seq<nat>)
    requires run != [] && forall k :: 0 <= k < |run| ==> run[k] < |us|
    ensures ReceiveRun(st, us, run)
         == EndOfMessage(OnEntries(ReceiveRun(st, us, run[..|run| - 1]), us[run[|run| - 1]]))
  {
  }

  lemma {:induction false} AllMentionsSplit(us: seq<Update>, vs: seq<Update>)
    ensures AllMentions(us + vs) == AllMentions(us) + AllMentions(vs)
  {
    hide UpdateMentions;
    if vs == [] {
      assert us + vs == us;
    } else {
      var n := |vs| - 1;
      AllMentionsSplit(us, vs[..n]);
      assert (us + vs)[..|us + vs| - 1] == us + vs[..n];
    }
  }

  lemma PrefixMentions(us: seq<Update>, i: nat)
    requires i <= |us|
    ensures AllMentions(us[..i]) <= AllMentions(us)
  {
    AllMentionsSplit(us[..i], us[i..]);
    assert us[..i] + us[i..] == us;
  }

  // ---- What accepted updates do ----

  ghost predicate Mentioned(ms: seq<Mention>, a: Address, s: Address, w: bool, pruned: bool) {
    exists m :: m in ms && m.group == a && m.source.addr == s && m.source.wildcard == w && m.pruned == pruned
  }

  // The state is what the mentions ask for.
  ghost predicate Follows(st: State, ms: seq<Mention>) {
    && st.tmp == {}
    && (forall x :: x in st.joined <==> Mentioned(ms, x.group, x.source, false, false))
    && (forall x :: x in st.pruned <==> Mentioned(ms, x.group, x.source, false, true))
    && (forall a :: a in st.star ==> Mentioned(ms, a, st.star[a], true, false))
    && (forall a, s :: Mentioned(ms, a, s, true, false) ==> a in st.star)
  }

  // Joins and prunes with the bits that updates of joins have.
  ghost predicate Proper(m: Mention) {
    if m.pruned then !m.source.wildcard && m.source.rpt else m.source.wildcard == m.source.rpt
  }

  lemma MentionedMore(ms: seq<Mention>, m: Mention)
    ensures forall a, s, w, pruned :: Mentioned(ms + [m], a, s, w, pruned) <==>
              Mentioned(ms, a, s, w, pruned)
              || (m.group == a && m.source.addr == s && m.source.wildcard == w && m.pruned == pruned)
  {
    assert forall x :: x in ms + [m] <==> x in ms || x == m;
    forall a, s, w, pruned
      ensures Mentioned(ms + [m], a, s, w, pruned) <==>
                Mentioned(ms, a, s, w, pruned)
                || (m.group == a && m.source.addr == s && m.source.wildcard == w && m.pruned == pruned)
    {
      if Mentioned(ms, a, s, w, pruned) {
        var x :| x in ms && x.group == a && x.source.addr == s && x.source.wildcard == w && x.pruned == pruned;
        assert x in ms + [m];
      } else if m.group == a && m.source.addr == s && m.source.wildcard == w && m.pruned == pruned {
        assert m in ms + [m];
      }
    }
  }

  lemma FollowsMore(st: State, ms: seq<Mention>, m: Mention)
    requires Follows(st, ms) && Proper(m)
    requires !m.pruned && m.source.wildcard ==> forall s :: !Mentioned(ms, m.group, s, false, true)
    ensures Follows(OnMention(st, m), ms + [m])
  {
    MentionedMore(ms, m);
    hide Mentioned;
    var t := OnMention(st, m);
    if !m.pruned && m.source.wildcard {
      assert t.pruned == st.pruned && t.tmp == {};
    }
  }

  lemma {:induction false} MentionsFollow(ms: seq<Mention>)
    requires RpBefore(ms) && forall m :: m in ms ==> Proper(m)
    ensures Follows(OnMentions(NO_STATE, ms), ms)
  {
    if ms != [] {
      var n := |ms| - 1;
      var p, m := ms[..n], ms[n];
      assert ms == p + [m];
      assert forall i :: 0 <= i < n ==> p[i] == ms[i];
      assert forall x :: x in p ==> x in ms;
      assert m in ms;
      hide OnMention, Follows;
      MentionsFollow(p);
      if !m.pruned && m.source.wildcard {
        assert forall x :: x in p ==> !(x.pruned && x.group == m.group);
      }
      FollowsMore(OnMentions(NO_STATE, p), p, m);
    }
  }

  lemma CountIn(ms: seq<Mention>, m: Mention)
    ensures m in ms <==> multiset(ms)[m] > 0
  {
  }

  // In a configuration that is mentioned exactly, what is mentioned is what is wanted.
  lemma ExactIn(cfg: JPConfig, us: seq<Update>, m: Mention)
    requires Exact(cfg, us)
    ensures m in AllMentions(us) <==> WantedMention(cfg, m)
  {
    hide WantedMention, AllMentions;
    CountIn(AllMentions(us), m);
  }

  lemma WantedProper(cfg: JPConfig, m: Mention)
    requires WantedMention(cfg, m)
    ensures Proper(m)
  {
  }

  lemma FollowsWanted(cfg: JPConfig, st: State, ms: seq<Mention>)
    requires DistinctGroups(cfg) && Follows(st, ms)
    requires forall m :: m in ms <==> WantedMention(cfg, m)
    ensures st == Wanted(cfg)
  {
    var w := Wanted(cfg);
    forall x: SG
      ensures x in st.joined <==> x in w.joined
    {
      var m := Mention(x.group, Source(x.source, false, false), false);
      assert m in ms <==> x in w.joined by {
        assert x == SG(x.group, x.source);
      }
      if Mentioned(ms, x.group, x.source, false, false) {
        var y :| y in ms && y.group == x.group && y.source.addr == x.source && !y.source.wildcard && !y.pruned;
        assert y == m;
      }
    }
    forall x: SG
      ensures x in st.pruned <==> x in w.pruned
    {
      var m := Mention(x.group, Source(x.source, false, true), true);
      assert m in ms <==> x in w.pruned by {
        assert x == SG(x.group, x.source);
      }
      if Mentioned(ms, x.group, x.source, false, true) {
        var y :| y in ms && y.group == x.group && y.source.addr == x.source && !y.source.wildcard && y.pruned;
        assert y == m;
      }
    }
    forall a: Address
      ensures a in st.star <==> a in w.star
      ensures a in st.star ==> st.star[a] == w.star[a]
    {
      StarWanted(cfg, st, ms, a);
    }
    assert st.joined == w.joined && st.pruned == w.pruned;
    assert st.star.Keys == w.star.Keys;
    assert st.star == w.star;
  }

  lemma StarWanted(cfg: JPConfig, st: State, ms: seq<Mention>, a: Address)
    requires DistinctGroups(cfg) && Follows(st, ms)
    requires forall m :: m in ms <==> WantedMention(cfg, m)
    ensures a in st.star <==> a in Wanted(cfg).star
    ensures a in st.star ==> st.star[a] == Wanted(cfg).star[a]
  {
    if a in st.star {
      var y :| y in ms && y.group == a && y.source.addr == st.star[a] && y.source.wildcard && !y.pruned;
      assert WantedRP(cfg, y);
      var g :| g in cfg && g.group == a && g.rpt.Some? && g.rpt.value.rp == st.star[a];
      WantedPrune(cfg, g, 0);
    }
    if a in Wanted(cfg).star {
      var g :| g in cfg && g.rpt.Some? && g.group == a;
      var m := Mention(a, Source(g.rpt.value.rp, true, true), false);
      assert WantedRP(cfg, m);
      assert m in ms && Mentioned(ms, a, g.rpt.value.rp, true, false);
    }
  }

  // Updates that mention a configuration exactly take a neighbor that receives them in
  // order from nothing to exactly the configured state.
  lemma ExactTakesEffect(cfg: JPConfig, us: seq<Update>)
    requires DistinctGroups(cfg) && Exact(cfg, us)
    ensures ReceiveAll(us) == Wanted(cfg)
  {
    hide WantedMention, AllMentions, OnMentions, Wanted, ReceiveRun;
    var ms := AllMentions(us);
    forall m: Mention
      ensures m in ms <==> WantedMention(cfg, m)
      ensures m in ms ==> Proper(m)
    {
      ExactIn(cfg, us, m);
      if m in ms {
        WantedProper(cfg, m);
      }
    }
    hide Exact;
    assert RpBefore(ms) by {
      ExactRpBefore(cfg, us);
    }
    forall i | 0 <= i <= |us|
      ensures Follows(OnMentions(NO_STATE, AllMentions(us[..i])), AllMentions(us[..i]))
    {
      PrefixMentions(us, i);
      PrefixFine(AllMentions(us[..i]), ms);
      MentionsFollow(AllMentions(us[..i]));
    }
    ReceiveInOrder(NO_STATE, us, |us|);
    assert us[..|us|] == us;
    FollowsWanted(cfg, OnMentions(NO_STATE, ms), ms);
  }

  lemma ExactRpBefore(cfg: JPConfig, us: seq<Update>)
    requires Exact(cfg, us)
    ensures RpBefore(AllMentions(us))
  {
  }

  lemma PrefixFine(p: seq<Mention>, ms: seq<Mention>)
    requires p <= ms && RpBefore(ms) && forall m :: m in ms ==> Proper(m)
    ensures RpBefore(p) && forall m :: m in p ==> Proper(m)
  {
    assert forall i :: 0 <= i < |p| ==> p[i] == ms[i];
    hide Proper;
    forall m | m in p
      ensures Proper(m)
    {
      assert m in ms;
    }
  }

  // ---- Inverse updates ----

  // A source or RP that should be pruned when pimc stops.
  ghost predicate WantedInverse(cfg: JPConfig, m: Mention) {
    m.pruned && m.source.wildcard == m.source.rpt
    && exists g :: g in cfg && g.group == m.group && InverseOf(g, m)
  }

  ghost predicate InverseOf(g: GroupConfig, m: Mention) {
    && m.pruned && m.source.wildcard == m.source.rpt
    && (if m.source.wildcard then g.rpt.Some? && m.source.addr == g.rpt.value.rp else m.source.addr in g.spt)
  }

  // Exactly the configured groups have entries, and over all updates each configured
  // source and RP is pruned once and nothing else is listed.
  ghost predicate InverseExact(cfg: JPConfig, us: seq<Update>) {
    && GroupsOf(us) == GroupSet(cfg)
    && (forall m :: multiset(AllMentions(us))[m] == if WantedInverse(cfg, m) then 1 else 0)
  }

  ghost predicate PrunesOnly(ms: seq<Mention>) {
    forall m :: m in ms ==> m.pruned && m.source.wildcard == m.source.rpt
  }

  ghost predicate PrunesRP(ms: seq<Mention>, a: Address) {
    exists m :: m in ms && m.group == a && m.source.wildcard
  }

  ghost predicate PrunesSG(ms: seq<Mention>, x: SG) {
    exists m :: m in ms && m.group == x.group && m.source.addr == x.source && !m.source.wildcard
  }

  // t is st without what the mentions prune.
  ghost predicate Without(st: State, t: State, ms: seq<Mention>) {
    && t.pruned == st.pruned && t.tmp == st.tmp
    && (forall x :: x in t.joined <==> x in st.joined && !PrunesSG(ms, x))
    && (forall a :: a in t.star <==> a in st.star && !PrunesRP(ms, a))
    && (forall a :: a in t.star && a in st.star ==> t.star[a] == st.star[a])
  }

  lemma PrunesMoreOf(ms: seq<Mention>, m: Mention)
    ensures forall a :: PrunesRP(ms + [m], a) <==> PrunesRP(ms, a) || (m.group == a && m.source.wildcard)
    ensures forall x :: PrunesSG(ms + [m], x) <==>
              PrunesSG(ms, x) || (m.group == x.group && m.source.addr == x.source && !m.source.wildcard)
  {
    assert forall y :: y in ms + [m] <==> y in ms || y == m;
  }

  lemma {:induction false} MentionsWithout(st: State, ms: seq<Mention>)
    requires PrunesOnly(ms)
    ensures Without(st, OnMentions(st, ms), ms)
  {
    if ms != [] {
      var n := |ms| - 1;
      var p, m := ms[..n], ms[n];
      assert ms == p + [m];
      assert forall x :: x in p ==> x in ms;
      assert m in ms;
      MentionsWithout(st, p);
      PrunesMoreOf(p, m);
      hide PrunesRP, PrunesSG;
    }
  }

  lemma InverseWanted(cfg: JPConfig, ms: seq<Mention>)
    requires DistinctGroups(cfg) && forall m :: m in ms <==> WantedInverse(cfg, m)
    ensures PrunesOnly(ms)
    ensures forall x :: PrunesSG(ms, x) <==> x in Wanted(cfg).joined
    ensures forall a :: PrunesRP(ms, a) <==> a in Wanted(cfg).star
  {
    forall x: SG
      ensures PrunesSG(ms, x) <==> x in Wanted(cfg).joined
    {
      var m := Mention(x.group, Source(x.source, false, false), true);
      assert x == SG(x.group, x.source);
      assert m in ms <==> x in Wanted(cfg).joined;
    }
    forall a: Address
      ensures PrunesRP(ms, a) <==> a in Wanted(cfg).star
    {
      if a in Wanted(cfg).star {
        var g :| g in cfg && g.rpt.Some? && g.group == a;
        var m := Mention(a, Source(g.rpt.value.rp, true, true), true);
        assert InverseOf(g, m);
        assert m in ms;
      }
    }
  }

  // Inverse updates that mention a configuration exactly take its joins, and nothing
  // else, from a neighbor that receives them in order.
  lemma InverseTakesEffect(cfg: JPConfig, us: seq<Update>, st: State)
    requires DistinctGroups(cfg) && InverseExact(cfg, us) && st.tmp == {}
    ensures var t := ReceiveRun(st, us, InOrder(|us|));
            && t.joined == st.joined - Wanted(cfg).joined
            && t.star == st.star - Wanted(cfg).star.Keys
            && t.pruned == st.pruned && t.tmp == {}
  {
    hide WantedInverse, AllMentions, OnMentions, Wanted, ReceiveRun, PrunesSG, PrunesRP;
    var ms := AllMentions(us);
    forall m: Mention
      ensures m in ms <==> WantedInverse(cfg, m)
    {
      CountIn(ms, m);
    }
    InverseWanted(cfg, ms);
    forall i | 0 <= i <= |us|
      ensures OnMentions(st, AllMentions(us[..i])).tmp == {}
    {
      PrefixMentions(us, i);
      assert forall m :: m in AllMentions(us[..i]) ==> m in ms;
      MentionsWithout(st, AllMentions(us[..i]));
    }
    ReceiveInOrder(st, us, |us|);
    assert us[..|us|] == us;
    MentionsWithout(st, ms);
    var t := OnMentions(st, ms);
    assert t.joined == st.joined - Wanted(cfg).joined;
    assert t.star == st.star - Wanted(cfg).star.Keys;
  }
}
