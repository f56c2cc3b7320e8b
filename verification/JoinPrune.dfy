// The values of the Join/Prune model: configurations, update entries, their
// sizes on the wire, and the per-group views of a list of updates.
module JoinPrune {

  datatype Option<+T> = None | Some(value: T)

  // An IPv4 address as a number in host order.
  type Address = a: nat | a < 0x1_0000_0000

  const GRP_HDR_SIZE: nat := 12
  const SRC_SIZE: nat := 8
  const MIN_ENTRY_SIZE: nat := GRP_HDR_SIZE + SRC_SIZE
  const JP_CAPACITY: nat := 1466
  const MAX_PRUNE_SG_RPT: nat := 180

  // ---- Configuration ----

  datatype RPT = RPT(rp: Address, prunes: seq<Address>)

  datatype GroupConfig = GroupConfig(group: Address, rpt: Option<RPT>, spt: seq<Address>)

  type JPConfig = seq<GroupConfig>

  ghost predicate NoDuplicates<T>(s: seq<T>) {
    forall i, j :: 0 <= i < j < |s| ==> s[i] != s[j]
  }

  lemma NoDuplicatesAppend<T>(s: seq<T>, x: T)
    ensures NoDuplicates(s + [x]) <==> NoDuplicates(s) && x !in s
  {
    var t := s + [x];
    if NoDuplicates(t) {
      assert forall i, j :: 0 <= i < j < |s| ==> t[i] == s[i] && t[j] == s[j];
      assert forall i :: 0 <= i < |s| ==> t[i] == s[i] && t[i] != t[|s|];
    }
  }

  // A list has no duplicates if every element counts once.
  lemma CountOnce<T>(s: seq<T>)
    ensures NoDuplicates(s) <==> forall x :: multiset(s)[x] <= 1
    ensures forall x :: x in s <==> multiset(s)[x] > 0
  {
    NoDuplicatesCount(s);
  }

  lemma {:induction false} NoDuplicatesCount<T>(s: seq<T>)
    ensures NoDuplicates(s) <==> forall x :: multiset(s)[x] <= 1
  {
    if s != [] {
      var n := |s| - 1;
      var p, y := s[..n], s[n];
      assert s == p + [y];
      NoDuplicatesCount(p);
      NoDuplicatesAppend(p, y);
      assert multiset(s) == multiset(p) + multiset{y};
      if forall x :: multiset(s)[x] <= 1 {
        assert multiset(s)[y] == multiset(p)[y] + 1;
        forall x
          ensures multiset(p)[x] <= 1
        {
          assert multiset(p)[x] <= multiset(s)[x];
        }
      }
    }
  }

  ghost predicate Disjoint<T>(s: seq<T>, t: seq<T>) {
    forall x :: x in s ==> x !in t
  }

  // What the configuration loader guarantees of one group.
  ghost predicate GroupLoaded(g: GroupConfig) {
    && NoDuplicates(g.spt)
    && (g.rpt.Some? ==>
          && |g.rpt.value.prunes| <= MAX_PRUNE_SG_RPT
          && NoDuplicates(g.rpt.value.prunes)
          && Disjoint(g.spt, g.rpt.value.prunes))
  }

  // The prune limit alone, which is all the packer itself needs to terminate.
  predicate PrunesBounded(g: GroupConfig) {
    g.rpt.Some? ==> |g.rpt.value.prunes| <= MAX_PRUNE_SG_RPT
  }

  ghost predicate DistinctGroups(cfg: JPConfig) {
    forall i, j :: 0 <= i < j < |cfg| ==> cfg[i].group != cfg[j].group
  }

  // What the configuration loader guarantees of a whole configuration.
  ghost predicate Loaded(cfg: JPConfig) {
    && DistinctGroups(cfg)
    && forall g :: g in cfg ==> GroupLoaded(g)
  }

  // The loader lets an empty source list through, so a group may ask for nothing.
  predicate AsksForNothing(g: GroupConfig) {
    g.rpt.None? && g.spt == []
  }

  // ---- Updates ----

  datatype Source = Source(addr: Address, wildcard: bool, rpt: bool)

  datatype GroupEntry = GroupEntry(group: Address, joins: seq<Source>, prunes: seq<Source>)

  type Update = seq<GroupEntry>

  function EntrySize(e: GroupEntry): nat {
    GRP_HDR_SIZE + (|e.joins| + |e.prunes|) * SRC_SIZE
  }

  // The bytes taken by the entries of an update.
  function Used(u: Update): nat {
    if u == [] then 0 else Used(u[..|u| - 1]) + EntrySize(u[|u| - 1])
  }

  // The bytes left in an update; negative if the entries do not fit.
  function Room(u: Update): int {
    JP_CAPACITY - Used(u)
  }

  predicate Fits(u: Update) {
    Used(u) <= JP_CAPACITY
  }

  predicate Full(u: Update) {
    Room(u) < MIN_ENTRY_SIZE
  }

  lemma UsedEmpty()
    ensures Used([]) == 0
  {
  }

  lemma UsedAppend(u: Update, e: GroupEntry)
    ensures Used(u + [e]) == Used(u) + EntrySize(e)
  {
    assert (u + [e])[..|u|] == u;
  }

  // ---- Views of a list of updates ----

  // The entries of an update that belong to group a, in order.
  function EntriesIn(a: Address, u: Update): seq<GroupEntry> {
    if u == [] then []
    else EntriesIn(a, u[..|u| - 1]) + (if u[|u| - 1].group == a then [u[|u| - 1]] else [])
  }

  // The entries of a list of updates that belong to group a, in order.
  function EntriesOf(a: Address, us: seq<Update>): seq<GroupEntry> {
    if us == [] then [] else EntriesIn(a, us[0]) + EntriesOf(a, us[1..])
  }

  // The groups that have an entry in a list of updates.
  ghost function GroupsOf(us: seq<Update>): set<Address> {
    set u, e | u in us && e in u :: e.group
  }

  // The addresses of the sources whose wildcard bit is w, in order.
  function Addresses(ss: seq<Source>, w: bool): seq<Address> {
    if ss == [] then []
    else Addresses(ss[..|ss| - 1], w) +
         (if ss[|ss| - 1].wildcard == w then [ss[|ss| - 1].addr] else [])
  }

  function Side(e: GroupEntry, pruned: bool): seq<Source> {
    if pruned then e.prunes else e.joins
  }

  // The addresses that a list of entries joins or prunes, with the given
  // wildcard bit, in order.
  function Listed(es: seq<GroupEntry>, pruned: bool, w: bool): seq<Address> {
    if es == [] then [] else Addresses(Side(es[0], pruned), w) + Listed(es[1..], pruned, w)
  }

  function JoinedSources(es: seq<GroupEntry>): seq<Address> { Listed(es, false, false) }

  function JoinedRPs(es: seq<GroupEntry>): seq<Address> { Listed(es, false, true) }

  function PrunedSources(es: seq<GroupEntry>): seq<Address> { Listed(es, true, false) }

  function PrunedRPs(es: seq<GroupEntry>): seq<Address> { Listed(es, true, true) }

  lemma {:induction false} AddressesAppend(ss: seq<Source>, s: Source, w: bool)
    ensures Addresses(ss + [s], w) == Addresses(ss, w) + (if s.wildcard == w then [s.addr] else [])
  {
    assert (ss + [s])[..|ss|] == ss;
  }

  lemma {:induction false} EntriesInAppend(a: Address, u: Update, e: GroupEntry)
    ensures EntriesIn(a, u + [e]) == EntriesIn(a, u) + (if e.group == a then [e] else [])
  {
    assert (u + [e])[..|u|] == u;
  }

  lemma {:induction false} EntriesInMember(a: Address, u: Update, e: GroupEntry)
    ensures e in EntriesIn(a, u) <==> e in u && e.group == a
  {
    if u != [] {
      EntriesInMember(a, u[..|u| - 1], e);
      assert u == u[..|u| - 1] + [u[|u| - 1]];
    }
  }

  lemma {:induction false} EntriesOfMember(a: Address, us: seq<Update>, e: GroupEntry)
    ensures e in EntriesOf(a, us) <==> e.group == a && exists u :: u in us && e in u
  {
    if us != [] {
      EntriesOfMember(a, us[1..], e);
      EntriesInMember(a, us[0], e);
      assert us == [us[0]] + us[1..];
    }
  }

  lemma {:induction false} EntriesOfAppend(a: Address, us: seq<Update>, vs: seq<Update>)
    ensures EntriesOf(a, us + vs) == EntriesOf(a, us) + EntriesOf(a, vs)
  {
    if us == [] {
      assert us + vs == vs;
    } else {
      var rest := us[1..];
      calc {
        EntriesOf(a, us + vs);
        { assert (us + vs)[0] == us[0] && (us + vs)[1..] == rest + vs; }
        EntriesIn(a, us[0]) + EntriesOf(a, rest + vs);
        { EntriesOfAppend(a, rest, vs); }
        EntriesIn(a, us[0]) + (EntriesOf(a, rest) + EntriesOf(a, vs));
        EntriesOf(a, us) + EntriesOf(a, vs);
      }
    }
  }

  // A group has an entry somewhere iff its list of entries is not empty.
  lemma GroupsOfEntries(a: Address, us: seq<Update>)
    ensures a in GroupsOf(us) <==> EntriesOf(a, us) != []
  {
    if EntriesOf(a, us) != [] {
      EntriesOfMember(a, us, EntriesOf(a, us)[0]);
    }
    if a in GroupsOf(us) {
      var u, e :| u in us && e in u && e.group == a;
      EntriesOfMember(a, us, e);
    }
  }

  lemma {:induction false} ListedAppend(es: seq<GroupEntry>, fs: seq<GroupEntry>, pruned: bool, w: bool)
    ensures Listed(es + fs, pruned, w) == Listed(es, pruned, w) + Listed(fs, pruned, w)
  {
    if es == [] {
      assert es + fs == fs;
    } else {
      var here, rest := Addresses(Side(es[0], pruned), w), es[1..];
      calc {
        Listed(es + fs, pruned, w);
        { assert (es + fs)[0] == es[0] && (es + fs)[1..] == rest + fs; }
        here + Listed(rest + fs, pruned, w);
        { ListedAppend(rest, fs, pruned, w); }
        here + (Listed(rest, pruned, w) + Listed(fs, pruned, w));
        Listed(es, pruned, w) + Listed(fs, pruned, w);
      }
    }
  }

  lemma ListedOne(e: GroupEntry, pruned: bool, w: bool)
    ensures Listed([e], pruned, w) == Addresses(Side(e, pruned), w)
  {
    assert [e][1..] == [];
  }
}
