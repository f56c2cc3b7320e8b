// What the packing guarantees, for every configuration: shape, density and
// conservation.  Each property is an invariant of the scan, kept by every step.
module PackTheorems {
  import opened JoinPrune
  import opened FirstFit

  // ---- One step ----

  // No position at or behind k has an entry of group a.
  ghost predicate AbsentFrom(a: Address, q: seq<Update>, k: nat) {
    forall i :: k <= i < |q| ==> EntriesIn(a, q[i]) == []
  }

  ghost predicate AllFit(q: seq<Update>) {
    forall i :: 0 <= i < |q| ==> Fits(q[i])
  }

  // The reserved update still has room for the RPT block.
  ghost predicate RoomAtHome(q: seq<Update>, k: nat, g: GroupConfig, home: int) {
    && HomeOk(q, g, home)
    && (home >= k ==> Room(At(q, home)) >= BlockSize(g))
  }

  // A served update stays within capacity, and is full if sources are left over.
  lemma StepRoom(q: seq<Update>, k: nat, g: GroupConfig, srci: nat, home: int, n: nat, q': seq<Update>)
    requires k <= |q| && srci <= |g.spt| && AllFit(q)
    requires PrunesBounded(g) && RoomAtHome(q, k, g, home)
    requires Step(q, k, g, srci, home, n, q')
    ensures srci + n <= |g.spt| && k < |q'|
    ensures |q'| == if k == |q| then |q| + 1 else |q|
    ensures forall i :: 0 <= i < |q| && i != k ==> q'[i] == q[i]
    ensures Fits(q'[k]) && Used(At(q, k)) <= Used(q'[k])
    ensures home == k ==> Used(q'[k]) >= BlockSize(g)
    ensures k == |q| ==> Used(q'[k]) >= MIN_ENTRY_SIZE && (home == k || srci < |g.spt|)
    ensures srci + n < |g.spt| ==> Full(q'[k])
    ensures RoomAtHome(q', k + 1, g, home)
  {
    hide Used, ChunkEntry, EntrySize;
    UsedEmpty();
    if n > 0 || home == k {
      PutAt(q, k, ChunkEntry(g, g.spt[srci..srci + n], home == k));
      ChunkSize(g, g.spt[srci..srci + n], home == k);
    }
    assert At(q', k) == q'[k];
  }

  lemma HomeHasRoom(q: seq<Update>, g: GroupConfig)
    requires PrunesBounded(g)
    ensures RoomAtHome(q, 0, g, Home(q, g))
    ensures Home(q, g) == |q| ==> forall i :: 0 <= i < |q| ==> Room(q[i]) < BlockSize(g)
  {
    UsedEmpty();
  }

  // The search for a builder with room for the RPT block ends because a fresh one
  // has it, which the limit on the prunes is exactly enough for.
  lemma BlockFitsIffBounded(g: GroupConfig)
    requires g.rpt.Some?
    ensures PrunesBounded(g) <==> exists u: Update :: Fits(u) && Room(u) >= BlockSize(g)
  {
    UsedEmpty();
    assert PrunesBounded(g) ==> Fits([]) && Room([]) >= BlockSize(g);
  }

  // ---- Density ----

  // Any two updates together hold more than one update can.
  ghost predicate Dense(q: seq<Update>) {
    forall i, j :: 0 <= i < j < |q| ==> Used(q[i]) + Used(q[j]) > JP_CAPACITY
  }

  // The state of the scan that keeps the result dense: behind the cursor all is
  // full while sources are left, and a fresh update is reserved only when no
  // other has room for the RPT block.
  ghost predicate DenseState(q: seq<Update>, k: nat, g: GroupConfig, srci: nat, home: int) {
    && k <= |q| && srci <= |g.spt| && RoomAtHome(q, k, g, home)
    && AllFit(q) && Dense(q)
    && (srci < |g.spt| ==> forall i :: 0 <= i < k ==> Full(q[i]))
    && (home == |q| ==> forall i :: 0 <= i < |q| ==> Room(q[i]) < BlockSize(g))
  }

  lemma DenseStep(q: seq<Update>, k: nat, g: GroupConfig, srci: nat, home: int, n: nat, q': seq<Update>)
    requires DenseState(q, k, g, srci, home) && PrunesBounded(g)
    requires Step(q, k, g, srci, home, n, q')
    ensures srci + n <= |g.spt| && DenseState(q', k + 1, g, srci + n, home)
  {
    hide Used, Step;
    StepRoom(q, k, g, srci, home, n, q');
  }

  lemma {:induction false} SpreadDense(q: seq<Update>, k: nat, g: GroupConfig, srci: nat, home: int)
    requires DenseState(q, k, g, srci, home) && PrunesBounded(g)
    ensures AllFit(Spread(q, k, g, srci, home)) && Dense(Spread(q, k, g, srci, home))
    decreases |g.spt| - srci + (if home >= k then 1 else 0), |q| - k
  {
    if srci < |g.spt| || home >= k {
      hide Spread, Step, Used;
      var n, q' := NextStep(q, k, g, srci, home);
      DenseStep(q, k, g, srci, home, n, q');
      SpreadStep(q, k, g, srci, home, n, q');
      SpreadDense(q', k + 1, g, srci + n, home);
    }
  }

  lemma {:induction false} PackFromDense(q: seq<Update>, cfg: JPConfig)
    requires AllFit(q) && Dense(q)
    requires forall g :: g in cfg ==> PrunesBounded(g)
    ensures AllFit(PackFrom(q, cfg)) && Dense(PackFrom(q, cfg))
    decreases |cfg|
  {
    if cfg != [] {
      HomeHasRoom(q, cfg[0]);
      SpreadDense(q, 0, cfg[0], 0, Home(q, cfg[0]));
      PackFromDense(FitGroup(q, cfg[0]), cfg[1..]);
    }
  }

  function TotalUsed(q: seq<Update>): nat {
    if q == [] then 0 else TotalUsed(q[..|q| - 1]) + Used(q[|q| - 1])
  }

  // Twice the total counts every cyclically adjacent pair once.
  lemma {:induction false} DenseTotal(q: seq<Update>)
    requires Dense(q) && |q| >= 1
    ensures 2 * TotalUsed(q) >= (|q| - 1) * (JP_CAPACITY + 1) + Used(q[0]) + Used(q[|q| - 1])
  {
    var p := q[..|q| - 1];
    if |q| == 1 {
      assert p == [];
      assert TotalUsed(p) == 0;
    } else {
      DenseTotal(p);
      assert Used(q[|q| - 2]) + Used(q[|q| - 1]) > JP_CAPACITY;
    }
  }

  // First fit wastes less than half: n >= 2 updates carry more than n * 733 bytes.
  lemma PackedDense(cfg: JPConfig)
    requires forall g :: g in cfg ==> PrunesBounded(g)
    ensures AllFit(Packed(cfg)) && Dense(Packed(cfg))
    ensures |Packed(cfg)| >= 2 ==> TotalUsed(Packed(cfg)) > |Packed(cfg)| * 733
  {
    PackFromDense([], cfg);
    if |Packed(cfg)| >= 2 {
      DenseTotal(Packed(cfg));
    }
  }
}
