// The packing that the update packer computes, as a plain scan of a list of
// non-empty updates from its first one: no start index, no cursor, no builder
// kept empty at the end of a queue.  The position just past the end of the list
// stands for a fresh update.
module FirstFit {
  import opened JoinPrune

  function MaxSources(room: int): nat {
    if room <= GRP_HDR_SIZE then 0 else (room - GRP_HDR_SIZE) / SRC_SIZE
  }

  function Min(x: nat, y: nat): nat {
    if x <= y then x else y
  }

  // The most sources that fit with a group header.
  lemma MaxSourcesIs(room: int, n: nat)
    ensures n <= MaxSources(room) <==> n == 0 || 12 + 8 * n <= room
  {
  }

  // An update is full exactly if not even one source fits.
  lemma FullIffNoSource(u: Update)
    ensures Full(u) <==> MaxSources(Room(u)) == 0
    ensures Full(u) <==> 1466 - Used(u) < 20
  {
    hide Used;
  }

  // ---- The entries a group is turned into ----

  function SptSources(srcs: seq<Address>): seq<Source> {
    seq(|srcs|, i requires 0 <= i < |srcs| => Source(srcs[i], false, false))
  }

  function RptPrunes(srcs: seq<Address>): seq<Source> {
    seq(|srcs|, i requires 0 <= i < |srcs| => Source(srcs[i], false, true))
  }

  // An entry of group g that joins some of its sources and, when block is set,
  // also carries the whole RPT block: the RP join and every (S,G,rpt) prune.
  function ChunkEntry(g: GroupConfig, srcs: seq<Address>, block: bool): GroupEntry
    requires block ==> g.rpt.Some?
  {
    if block then
      GroupEntry(g.group, SptSources(srcs) + [Source(g.rpt.value.rp, true, true)], RptPrunes(g.rpt.value.prunes))
    else
      GroupEntry(g.group, SptSources(srcs), [])
  }

  // The bytes of the RPT block of g, without and with a group header.
  function BlockCost(g: GroupConfig): nat
    requires g.rpt.Some?
  {
    SRC_SIZE * (|g.rpt.value.prunes| + 1)
  }

  function BlockSize(g: GroupConfig): nat
    requires g.rpt.Some?
  {
    GRP_HDR_SIZE + BlockCost(g)
  }

  lemma ChunkSize(g: GroupConfig, srcs: seq<Address>, block: bool)
    requires block ==> g.rpt.Some?
    ensures EntrySize(ChunkEntry(g, srcs, block))
         == GRP_HDR_SIZE + SRC_SIZE * |srcs| + (if block then BlockCost(g) else 0)
  {
  }

  // ---- The scan ----

  function At(q: seq<Update>, k: nat): Update {
    if k < |q| then q[k] else []
  }

  function Put(q: seq<Update>, k: nat, e: GroupEntry): seq<Update>
    requires k <= |q|
  {
    if k < |q| then q[k := q[k] + [e]] else q + [[e]]
  }

  lemma PutAt(q: seq<Update>, k: nat, e: GroupEntry)
    requires k <= |q|
    ensures k < |Put(q, k, e)| && |q| <= |Put(q, k, e)| <= |q| + 1
    ensures At(Put(q, k, e), k) == At(q, k) + [e]
    ensures forall i: nat :: i != k ==> At(Put(q, k, e), i) == At(q, i)
    ensures Used(At(Put(q, k, e), k)) == Used(At(q, k)) + EntrySize(e)
  {
    assert [] + [e] == [e];
    UsedAppend(At(q, k), e);
  }

  // The first position from k on with room for need bytes.
  function FirstWithRoom(q: seq<Update>, k: nat, need: nat): (r: nat)
    requires k <= |q|
    ensures k <= r <= |q|
    ensures r < |q| ==> Room(q[r]) >= need
    ensures forall i :: k <= i < r ==> Room(q[i]) < need
    decreases |q| - k
  {
    if k == |q| || Room(q[k]) >= need then k else FirstWithRoom(q, k + 1, need)
  }

  // How many of left sources are joined in update u.
  function Share(u: Update, g: GroupConfig, left: nat, block: bool): (n: nat)
    requires block ==> g.rpt.Some?
    ensures n <= left
  {
    Min(MaxSources(Room(u) - (if block then BlockCost(g) else 0)), left)
  }

  // home is the position that takes the RPT block, -1 if none does.
  ghost predicate HomeOk(q: seq<Update>, g: GroupConfig, home: int) {
    -1 <= home <= |q| && (home >= 0 ==> g.rpt.Some?)
  }

  // Joins n sources, from srci on, and possibly the RPT block in the update at k.
  function Served(q: seq<Update>, k: nat, g: GroupConfig, srci: nat, n: nat, block: bool): seq<Update>
    requires k <= |q| && srci + n <= |g.spt| && (block ==> g.rpt.Some?)
  {
    if n == 0 && !block then q else Put(q, k, ChunkEntry(g, g.spt[srci..srci + n], block))
  }

  // Places the sources of g from srci on, and the RPT block unless home is
  // behind k, in the updates from position k on.
  function Spread(q: seq<Update>, k: nat, g: GroupConfig, srci: nat, home: int): seq<Update>
    requires k <= |q| && srci <= |g.spt| && HomeOk(q, g, home)
    decreases |g.spt| - srci + (if home >= k then 1 else 0), |q| - k
  {
    if srci == |g.spt| && home < k then q
    else
      var n := Share(At(q, k), g, |g.spt| - srci, home == k);
      Spread(Served(q, k, g, srci, n, home == k), k + 1, g, srci + n, home)
  }

  function Home(q: seq<Update>, g: GroupConfig): int {
    if g.rpt.Some? then FirstWithRoom(q, 0, BlockSize(g)) else -1
  }

  function FitGroup(q: seq<Update>, g: GroupConfig): seq<Update> {
    Spread(q, 0, g, 0, Home(q, g))
  }

  // The updates after the groups of cfg are packed behind those of q.
  function PackFrom(q: seq<Update>, cfg: JPConfig): seq<Update>
    decreases |cfg|
  {
    if cfg == [] then q else PackFrom(FitGroup(q, cfg[0]), cfg[1..])
  }

  function Packed(cfg: JPConfig): seq<Update> {
    PackFrom([], cfg)
  }

  // ---- Facts about the scan that the packer's loops rest on ----

  lemma FirstWithRoomIs(q: seq<Update>, need: nat, k: nat)
    requires k <= |q|
    requires forall i :: 0 <= i < k ==> Room(q[i]) < need
    requires k < |q| ==> Room(q[k]) >= need
    ensures FirstWithRoom(q, 0, need) == k
  {
  }

  // Full updates are passed over untouched, so a scan may start behind them.
  lemma {:induction false} SpreadSkipsFull(q: seq<Update>, k: nat, g: GroupConfig, home: int, start: nat)
    requires k <= start <= |q| && HomeOk(q, g, home)
    requires home >= 0 ==> start <= home
    requires forall i :: k <= i < start ==> Full(q[i])
    ensures Spread(q, k, g, 0, home) == Spread(q, start, g, 0, home)
    decreases start - k
  {
    if k < start {
      assert Full(q[k]) && Share(q[k], g, |g.spt|, false) == 0;
      SpreadSkipsFull(q, k + 1, g, home, start);
    }
  }

  lemma SpreadFromStart(q: seq<Update>, g: GroupConfig, start: nat)
    requires start <= |q|
    requires forall i :: 0 <= i < start ==> Full(q[i])
    ensures HomeOk(q, g, Home(q, g))
    ensures FitGroup(q, g) == Spread(q, start, g, 0, Home(q, g))
    ensures g.rpt.Some? ==> Home(q, g) >= start
  {
    if g.rpt.Some? {
      var home := Home(q, g);
      assert home < start ==> Full(q[home]);
    }
    SpreadSkipsFull(q, 0, g, Home(q, g), start);
  }

  // q' is q after the scan has served position k, joining n sources there.
  ghost predicate Step(q: seq<Update>, k: nat, g: GroupConfig, srci: nat, home: int, n: nat, q': seq<Update>)
    requires k <= |q| && srci <= |g.spt| && HomeOk(q, g, home)
  {
    && (srci < |g.spt| || home >= k)
    && n == Share(At(q, k), g, |g.spt| - srci, home == k)
    && q' == Served(q, k, g, srci, n, home == k)
  }

  lemma NextStep(q: seq<Update>, k: nat, g: GroupConfig, srci: nat, home: int) returns (n: nat, q': seq<Update>)
    requires k <= |q| && srci <= |g.spt| && HomeOk(q, g, home)
    requires srci < |g.spt| || home >= k
    ensures Step(q, k, g, srci, home, n, q')
  {
    n := Share(At(q, k), g, |g.spt| - srci, home == k);
    q' := Served(q, k, g, srci, n, home == k);
  }

  lemma SpreadStep(q: seq<Update>, k: nat, g: GroupConfig, srci: nat, home: int, n: nat, q': seq<Update>)
    requires k <= |q| && srci <= |g.spt| && HomeOk(q, g, home)
    requires Step(q, k, g, srci, home, n, q')
    ensures srci + n <= |g.spt| && k + 1 <= |q'| && HomeOk(q', g, home)
    ensures n == 0 && home != k ==> q' == q
    ensures Spread(q, k, g, srci, home) == Spread(q', k + 1, g, srci + n, home)
  {
  }

  lemma SpreadDone(q: seq<Update>, k: nat, g: GroupConfig, home: int)
    requires k <= |q| && HomeOk(q, g, home) && home < k
    ensures Spread(q, k, g, |g.spt|, home) == q
  {
  }

  // With no source left only the update at home changes.
  lemma {:induction false} SpreadBlockOnly(q: seq<Update>, k: nat, g: GroupConfig, home: nat)
    requires k <= home && HomeOk(q, g, home)
    ensures Spread(q, k, g, |g.spt|, home) == Put(q, home, ChunkEntry(g, [], true))
    decreases home - k
  {
    if k < home {
      SpreadBlockOnly(q, k + 1, g, home);
    }
  }
}
