// The packing that the inverse packer computes, as a plain scan: the prunes of
// each group fill the updates in order.
module InverseFit {
  import opened JoinPrune
  import opened FirstFit

  // The prunes of a group: its RP, if asked for, and then its SPT sources.
  function Prunes(g: GroupConfig, withRP: bool): seq<Source>
    requires withRP ==> g.rpt.Some?
  {
    (if withRP then [Source(g.rpt.value.rp, true, true)] else []) + SptSources(g.spt)
  }

  function PruneEntry(a: Address, ss: seq<Source>): GroupEntry {
    GroupEntry(a, [], ss)
  }

  function PruneShare(u: Update, left: nat): (n: nat)
    ensures n <= left
  {
    Min(MaxSources(Room(u)), left)
  }

  function Pruned(q: seq<Update>, k: nat, a: Address, ss: seq<Source>, i: nat, n: nat): seq<Update>
    requires k <= |q| && i + n <= |ss|
  {
    if n == 0 then q else Put(q, k, PruneEntry(a, ss[i..i + n]))
  }

  // Places the prunes ss of group a, from index i on, in the updates from k on.
  function SpreadPrunes(q: seq<Update>, k: nat, a: Address, ss: seq<Source>, i: nat): seq<Update>
    requires k <= |q| && i <= |ss|
    decreases |ss| - i, |q| - k
  {
    if i == |ss| then q
    else
      var n := PruneShare(At(q, k), |ss| - i);
      SpreadPrunes(Pruned(q, k, a, ss, i, n), k + 1, a, ss, i + n)
  }

  // The inverse packer loses the RP prune of a group that also has SPT sources
  // when the first update with any room has room for exactly one source.
  predicate DropsRP(q: seq<Update>, g: GroupConfig) {
    && g.rpt.Some? && g.spt != []
    && var k := FirstWithRoom(q, 0, MIN_ENTRY_SIZE);
       k < |q| && MaxSources(Room(q[k])) == 1
  }

  function PruneGroup(q: seq<Update>, g: GroupConfig): seq<Update> {
    SpreadPrunes(q, 0, g.group, Prunes(g, g.rpt.Some? && !DropsRP(q, g)), 0)
  }

  function InverseFrom(q: seq<Update>, cfg: JPConfig): seq<Update>
    decreases |cfg|
  {
    if cfg == [] then q else InverseFrom(PruneGroup(q, cfg[0]), cfg[1..])
  }

  function InversePacked(cfg: JPConfig): seq<Update> {
    InverseFrom([], cfg)
  }

  // ---- Facts about the scan that the packer's loops rest on ----

  ghost predicate PruneStep(q: seq<Update>, k: nat, a: Address, ss: seq<Source>, i: nat, n: nat, q': seq<Update>)
    requires k <= |q| && i < |ss|
  {
    n == PruneShare(At(q, k), |ss| - i) && q' == Pruned(q, k, a, ss, i, n)
  }

  lemma NextPrunes(q: seq<Update>, k: nat, a: Address, ss: seq<Source>, i: nat) returns (n: nat, q': seq<Update>)
    requires k <= |q| && i < |ss|
    ensures PruneStep(q, k, a, ss, i, n, q')
  {
    n := PruneShare(At(q, k), |ss| - i);
    q' := Pruned(q, k, a, ss, i, n);
  }

  lemma SpreadPrunesStep(q: seq<Update>, k: nat, a: Address, ss: seq<Source>, i: nat, n: nat, q': seq<Update>)
    requires k <= |q| && i < |ss| && PruneStep(q, k, a, ss, i, n, q')
    ensures i + n <= |ss| && k + 1 <= |q'|
    ensures n == 0 ==> q' == q
    ensures SpreadPrunes(q, k, a, ss, i) == SpreadPrunes(q', k + 1, a, ss, i + n)
  {
  }

  lemma SpreadPrunesDone(q: seq<Update>, k: nat, a: Address, ss: seq<Source>)
    requires k <= |q|
    ensures SpreadPrunes(q, k, a, ss, |ss|) == q
  {
  }

  lemma {:induction false} SpreadPrunesSkips(q: seq<Update>, k: nat, a: Address, ss: seq<Source>, start: nat)
    requires k <= start <= |q|
    requires forall i :: k <= i < start ==> Full(q[i])
    ensures SpreadPrunes(q, k, a, ss, 0) == SpreadPrunes(q, start, a, ss, 0)
    decreases start - k
  {
    if k < start {
      assert Full(q[k]) && PruneShare(q[k], |ss|) == 0;
      SpreadPrunesSkips(q, k + 1, a, ss, start);
      SpreadPrunesDone(q, k, a, ss);
      SpreadPrunesDone(q, start, a, ss);
    }
  }
}
