// The builder objects that the packer and the inverse packer fill in place:
// the queue of update builders, its shared start index, and the cursor over it.
module Builders {
  import opened JoinPrune
  import opened FirstFit

  class GroupEntryBuilder {
    const group: Address
    var joins: seq<Source>
    var prunes: seq<Source>

    constructor (group: Address)
      ensures this.group == group && joins == [] && prunes == []
    {
      this.group := group;
      joins, prunes := [], [];
    }

    ghost function Entry(): GroupEntry
      reads this
    {
      GroupEntry(group, joins, prunes)
    }

    method Join(src: Address, wildcard: bool, rpt: bool)
      modifies `joins
      ensures joins == old(joins) + [Source(src, wildcard, rpt)]
    {
      joins := joins + [Source(src, wildcard, rpt)];
    }

    method Prune(src: Address, wildcard: bool, rpt: bool)
      modifies `prunes
      ensures prunes == old(prunes) + [Source(src, wildcard, rpt)]
    {
      prunes := prunes + [Source(src, wildcard, rpt)];
    }

    method Size() returns (size: nat)
      ensures size == EntrySize(Entry())
    {
      size := GRP_HDR_SIZE + (|joins| + |prunes|) * SRC_SIZE;
    }

    // Moves the collected sources out, so the size must be taken before.
    method Build() returns (e: GroupEntry)
      modifies this
      ensures e == old(Entry())
      ensures joins == [] && prunes == []
    {
      e := GroupEntry(group, joins, prunes);
      joins, prunes := [], [];
    }
  }

  class UpdateBuilder {
    ghost const position: nat  // in the queue; makes the builders distinct
    var groups: seq<GroupEntry>
    var size: nat

    ghost predicate Valid()
      reads this
    {
      size == Used(groups) && Fits(groups)
    }

    constructor (ghost position: nat)
      ensures Valid() && groups == [] && this.position == position
    {
      this.position := position;
      groups, size := [], 0;
    }

    // ok is false where the source raises an exception.
    method Add(group: GroupEntry, sz: nat) returns (ok: bool)
      requires Valid() && sz == EntrySize(group)
      modifies this
      ensures Valid()
      ensures ok <==> old(Room(groups)) >= sz
      ensures groups == if ok then old(groups) + [group] else old(groups)
    {
      if size + sz > JP_CAPACITY {
        return false;
      }
      UsedAppend(groups, group);
      groups := groups + [group];
      size := size + sz;
      return true;
    }

    function Remaining(): (r: nat)
      requires Valid()
      reads this
      ensures r == Room(groups)
    {
      JP_CAPACITY - size
    }

    predicate IsFull()
      requires Valid()
      reads this
      ensures IsFull() <==> Full(groups)
    {
      Remaining() < MIN_ENTRY_SIZE
    }

    predicate Empty()
      reads this
    {
      groups == []
    }
  }

  // The two fields that a packer shares with its cursors.
  class BuilderQueue {
    var ubq: seq<UpdateBuilder>
    var start: nat

    ghost var Updates: seq<Update>  // the updates built so far, none of them empty
    ghost var Repr: set<object>

    // What every operation of both packers keeps: the builders are distinct,
    // within capacity and hold the updates so far, with at most one more builder,
    // the last and empty; and every builder before the start index is full.
    ghost predicate Valid()
      reads this, Repr
      ensures Valid() ==> this in Repr
    {
      && this in Repr
      && |Updates| <= |ubq| <= |Updates| + 1
      && start < |ubq|
      && start <= |Updates|
      && (forall i :: 0 <= i < |ubq| ==>
            && ubq[i] in Repr && ubq[i].position == i
            && ubq[i].Valid() && ubq[i].groups == At(Updates, i))
      && (forall i :: 0 <= i < |Updates| ==> Updates[i] != [])
      && (forall i :: 0 <= i < start ==> Full(Updates[i]))
    }

    constructor ()
      ensures Valid() && fresh(Repr)
      ensures Updates == []
    {
      var first := new UpdateBuilder(0);
      ubq, start := [first], 0;
      Updates, Repr := [], {this, first};
    }

    // Adds to the builder at position k, wherever it was reached from.
    method AddTo(ub: UpdateBuilder, ghost k: nat, ge: GroupEntry, sz: nat) returns (ok: bool)
      requires Valid() && k < |ubq| && ub == ubq[k]
      requires sz == EntrySize(ge)
      modifies `Updates, ub
      ensures Valid()
      ensures ok <==> Room(old(At(Updates, k))) >= sz
      ensures Updates == if ok then Put(old(Updates), k, ge) else old(Updates)
    {
      ok := ub.Add(ge, sz);
      if ok {
        PutAt(Updates, k, ge);
        Updates := Put(Updates, k, ge);
      }
    }

    // The built updates; an empty last builder is dropped.
    method Build() returns (updates: seq<Update>)
      requires Valid()
      ensures updates == Updates
    {
      var resSz := |ubq|;
      if ubq[resSz - 1].Empty() {
        resSz := resSz - 1;
      }
      updates := [];
      for i := 0 to resSz
        invariant updates == Updates[..i]
      {
        updates := updates + [ubq[i].groups];
      }
    }
  }

  class UBCursor {
    const queue: BuilderQueue
    var i: nat

    constructor (queue: BuilderQueue)
      ensures this.queue == queue && i == queue.start
    {
      this.queue := queue;
      i := queue.start;
    }

    ghost predicate Valid()
      reads this, queue, queue.Repr
    {
      && queue.Valid() && this !in queue.Repr
      && queue.start <= i < |queue.ubq|
    }

    function Addr(): UpdateBuilder
      requires i < |queue.ubq|
      reads this, queue
    {
      queue.ubq[i]
    }

    // The pre-increment: moves on, growing the queue when it passes the last builder.
    // Only moving past an empty builder, which no packer does, spoils the shape.
    method Advance()
      requires Valid()
      modifies this, queue
      ensures old(At(queue.Updates, i)) != [] ==> Valid()
      ensures fresh(queue.Repr - old(queue.Repr))
      ensures i == old(i) + 1 < |queue.ubq|
      ensures |queue.ubq| == if i < |old(queue.ubq)| then |old(queue.ubq)| else i + 1
      ensures |queue.ubq| > |old(queue.ubq)| ==> Addr().Valid() && Addr().Empty() && fresh(Addr())
      ensures queue.Updates == old(queue.Updates) && queue.start == old(queue.start)
      ensures old(queue.ubq) <= queue.ubq
    {
      i := i + 1;
      if i >= |queue.ubq| {
        var last := new UpdateBuilder(i);
        queue.ubq := queue.ubq + [last];
        queue.Repr := queue.Repr + {last};
      }
    }

    // Adds the entry at the cursor; ok is false where the source raises.
    method Add(geb: GroupEntryBuilder) returns (ok: bool)
      requires Valid() && geb !in queue.Repr
      modifies geb, queue, Addr()
      ensures Valid() && queue.Repr == old(queue.Repr)
      ensures queue.ubq == old(queue.ubq)
      ensures ok <==> Room(old(At(queue.Updates, i))) >= EntrySize(old(geb.Entry()))
      ensures queue.Updates == if ok then Put(old(queue.Updates), i, old(geb.Entry())) else old(queue.Updates)
    {
      var geSz := geb.Size();
      var ge := geb.Build();
      ok := queue.AddTo(queue.ubq[i], i, ge, geSz);
      if ok {
        UpdateStart();
      }
    }

    // Moves the start index to the last of the leading full builders up to the
    // cursor: everything strictly before it is full, and it may be full itself.
    method UpdateStart()
      requires Valid()
      modifies queue`start
      ensures Valid() && queue.start >= old(queue.start)
      ensures queue.start > old(queue.start) ==> Full(At(queue.Updates, queue.start))
      ensures queue.start == i || !Full(At(queue.Updates, queue.start)) || !Full(At(queue.Updates, queue.start + 1))
    {
      var j := queue.start;
      while j <= i
        invariant queue.start <= j <= i + 1 && queue.start <= i
        invariant j <= queue.start + 1 && j <= |queue.Updates|
        invariant old(queue.start) <= queue.start && j >= queue.start
        invariant j == old(queue.start) || j == queue.start + 1
        invariant forall k :: 0 <= k < j ==> Full(queue.Updates[k])
      {
        if queue.ubq[j].IsFull() {
          queue.start := j;
        } else {
          return;
        }
        j := j + 1;
      }
      UsedEmpty();
      // The source then grows a queue that start has run past; start is at most i.
      assert queue.start != |queue.ubq|;
    }
  }
}
