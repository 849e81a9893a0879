/**
 Whole runs of the slot allocator, starting empty and erasing live ids only.
 */
module SlotRuns {
  import opened Bounds
  import opened Slots

  datatype Op<R> = InsertOp(rec: R) | EraseOp(id: nat)

  function Step<R>(s: Store<R>, op: Op<R>): Store<R> {
    match op
    case InsertOp(r) => if CanInsert(s) then Insert(s, r) else s
    case EraseOp(id) => if id < |s.slots| then Erase(s, id) else s
  }

  function Exec<R>(ops: seq<Op<R>>): Store<R> {
    if ops == [] then Empty() else Step(Exec(ops[..|ops| - 1]), ops[|ops| - 1])
  }

  /** The caller's side of the bargain: only live ids are erased. */
  ghost predicate ErasesLive<R>(ops: seq<Op<R>>) {
    forall k :: 0 <= k < |ops| && ops[k].EraseOp? ==> IsLive(Exec(ops[..k]), ops[k].id)
  }

  lemma PrefixErasesLive<R>(ops: seq<Op<R>>, n: nat)
    requires ErasesLive(ops) && n <= |ops|
    ensures ErasesLive(ops[..n])
  {
    forall k | 0 <= k < n ensures ops[..n][..k] == ops[..k] {
    }
  }

  lemma LastErasesLive<R>(ops: seq<Op<R>>)
    requires ErasesLive(ops) && ops != []
    ensures ErasesLive(ops[..|ops| - 1])
    ensures ops[|ops| - 1].EraseOp? ==> IsLive(Exec(ops[..|ops| - 1]), ops[|ops| - 1].id)
  {
    PrefixErasesLive(ops, |ops| - 1);
  }

  /** Every run keeps the free list, and so every insert in it is possible. */
  lemma {:induction false} RunKeepsInv<R>(ops: seq<Op<R>>)
    requires ErasesLive(ops)
    ensures Inv(Exec(ops)) && CanInsert(Exec(ops))
  {
    if ops == [] {
      EmptyThreads<R>();
    } else {
      LastErasesLive(ops);
      var s := Exec(ops[..|ops| - 1]);
      RunKeepsInv(ops[..|ops| - 1]);
      var chain :| Threads(s, chain);
      match ops[|ops| - 1]
      case InsertOp(r) => InsertThreads(s, chain, r);
      case EraseOp(id) => EraseThreads(s, chain, id);
    }
  }

  /** Erasing twice breaks it: the slot then follows itself, and of two more inserts the second finds a record in it. */
  lemma ErasingTwiceBreaks<R>(r: R)
    ensures ErasesLive([InsertOp(r), EraseOp(0)])
    ensures var s := Exec([InsertOp(r), EraseOp(0)]);
      && |s.slots| == 1 && !Inv(Erase(s, 0))
      && CanInsert(Erase(s, 0)) && !CanInsert(Insert(Erase(s, 0), r))
  {
    var ops := [InsertOp(r), EraseOp(0)];
    assert ops[..1] == [InsertOp(r)] && ops[..1][..0] == [];
    assert Exec(ops[..1]) == Store([Record(r)], 1);
    assert Exec(ops) == Store([FreeSlot(1)], 0);
    RunKeepsInv(ops);
    EraseKeepsInvIffLive(Exec(ops), 0);
  }

  // ---- space ---------------------------------------------------------------------------

  /** The most records that were ever live at once. */
  function Peak<R>(ops: seq<Op<R>>): nat {
    if ops == [] then 0 else Max(Peak(ops[..|ops| - 1]), |Live(Exec(ops))|)
  }

  /** It is reached at some time, and never exceeded. */
  lemma {:induction false} PeakIsReached<R>(ops: seq<Op<R>>)
    ensures forall k :: 0 <= k <= |ops| ==> |Live(Exec(ops[..k]))| <= Peak(ops)
    ensures exists k :: 0 <= k <= |ops| && |Live(Exec(ops[..k]))| == Peak(ops)
  {
    hide Exec, Live;
    var n := |ops|;
    assert ops[..n] == ops;
    if n == 0 {
      NoneLive<R>();
      assert |Live(Exec(ops[..0]))| == Peak(ops);
    } else {
      PeakIsReached(ops[..n - 1]);
      forall k | 0 <= k < n ensures ops[..n - 1][..k] == ops[..k] {
      }
      var k :| 0 <= k <= n - 1 && |Live(Exec(ops[..n - 1][..k]))| == Peak(ops[..n - 1]);
      assert |Live(Exec(ops[..k]))| == Peak(ops) || |Live(Exec(ops[..n]))| == Peak(ops);
    }
  }

  lemma NoneLive<R>()
    ensures |Live(Exec<R>([]))| == 0
  {
    assert Live(Exec<R>([])) == map[];
  }

  lemma StepSize<R>(s: Store<R>, op: Op<R>)
    requires Inv(s) && (op.EraseOp? ==> IsLive(s, op.id))
    ensures |Live(s)| <= |s.slots|
    ensures |Step(s, op).slots| == Max(|s.slots|, |Live(Step(s, op))|)
  {
    var chain :| Threads(s, chain);
    LiveAndFree(s, chain);
    match op
    case InsertOp(r) =>
      InsertThreads(s, chain, r);
      InsertRefinesMap(s, r);
      assert |Live(s)[s.free := r]| == |Live(s)| + 1;
    case EraseOp(id) =>
      EraseRefinesMap(s, id);
      assert Live(s) == (Live(s) - {id})[id := Live(s)[id]];
  }

  /** The allocator never holds more slots than were needed at its busiest moment. */
  lemma {:induction false} SpaceOptimal<R>(ops: seq<Op<R>>)
    requires ErasesLive(ops)
    ensures |Exec(ops).slots| == Peak(ops)
  {
    if ops != [] {
      LastErasesLive(ops);
      SpaceOptimal(ops[..|ops| - 1]);
      RunKeepsInv(ops[..|ops| - 1]);
      StepSize(Exec(ops[..|ops| - 1]), ops[|ops| - 1]);
    }
  }

  /** The id an insert hands out is below the peak that the insert itself may raise. */
  lemma ReturnedIdBelowPeak<R>(ops: seq<Op<R>>, k: nat)
    requires ErasesLive(ops) && k < |ops| && ops[k].InsertOp?
    ensures Exec(ops[..k]).free < Peak(ops[..k + 1])
    ensures Exec(ops[..k]).free !in Live(Exec(ops[..k]))
  {
    PrefixErasesLive(ops, k);
    PrefixErasesLive(ops, k + 1);
    SpaceOptimal(ops[..k + 1]);
    RunKeepsInv(ops[..k]);
    assert ops[..k + 1][..k] == ops[..k];
    InsertRefinesMap(Exec(ops[..k]), ops[k].rec);
  }

  // ---- what a lookup finds -------------------------------------------------------------

  /** Insert `k` returned `id` for `r`, and `id` has not been erased since. */
  ghost predicate StoredBy<R>(ops: seq<Op<R>>, k: nat, id: nat, r: R) {
    && k < |ops|
    && ops[k] == InsertOp(r)
    && Exec(ops[..k]).free == id
    && (forall j :: k < j < |ops| ==> ops[j] != EraseOp(id))
  }

  /** An id maps to `r` exactly if the insert that last returned it stored `r` and it was not erased since. */
  lemma {:induction false} LookupFindsLastStored<R>(ops: seq<Op<R>>, id: nat, r: R)
    requires ErasesLive(ops)
    ensures (id in Live(Exec(ops)) && Live(Exec(ops))[id] == r) <==> exists k :: StoredBy(ops, k, id, r)
  {
    if ops != [] {
      var before, op := ops[..|ops| - 1], ops[|ops| - 1];
      var s := Exec(before);
      LastErasesLive(ops);
      RunKeepsInv(before);
      LookupFindsLastStored(before, id, r);
      StoredByExtends(ops, id, r);
      match op
      case InsertOp(rec) => InsertRefinesMap(s, rec);
      case EraseOp(dead) => EraseRefinesMap(s, dead);
    }
  }

  lemma StoredByEarlier<R>(ops: seq<Op<R>>, k: nat, id: nat, r: R)
    requires k < |ops| - 1
    ensures StoredBy(ops, k, id, r) <==> ops[|ops| - 1] != EraseOp(id) && StoredBy(ops[..|ops| - 1], k, id, r)
  {
    assert ops[..|ops| - 1][..k] == ops[..k];
  }

  /** How the inserts that account for `id` change with the last operation. */
  lemma StoredByExtends<R>(ops: seq<Op<R>>, id: nat, r: R)
    requires ops != []
    ensures var before, op := ops[..|ops| - 1], ops[|ops| - 1];
      (exists k :: StoredBy(ops, k, id, r)) <==>
        || (op == InsertOp(r) && Exec(before).free == id)
        || (op != EraseOp(id) && exists k :: StoredBy(before, k, id, r))
  {
    var n := |ops| - 1;
    var before := ops[..n];
    forall k: nat | k < n
      ensures StoredBy(ops, k, id, r) <==> ops[n] != EraseOp(id) && StoredBy(before, k, id, r)
    {
      StoredByEarlier(ops, k, id, r);
    }
    assert StoredBy(ops, n, id, r) <==> ops[n] == InsertOp(r) && Exec(before).free == id;
  }

  // ---- reuse ---------------------------------------------------------------------------

  function Reverse(ids: seq<nat>): seq<nat> {
    if ids == [] then [] else Reverse(ids[1..]) + [ids[0]]
  }

  function EraseAll<R>(s: Store<R>, ids: seq<nat>): Store<R>
    decreases |ids|
  {
    if ids == [] then s else EraseAll(Step(s, EraseOp(ids[0])), ids[1..])
  }

  /** The store after inserting all records, and the ids they got. */
  function InsertAll<R>(s: Store<R>, rs: seq<R>): (Store<R>, seq<nat>)
    decreases |rs|
  {
    if rs == [] then (s, [])
    else
      var (t, ids) := InsertAll(Step(s, InsertOp(rs[0])), rs[1..]);
      (t, [s.free] + ids)
  }

  lemma {:induction false} EraseAllThreads<R>(s: Store<R>, chain: seq<nat>, ids: seq<nat>)
    requires Threads(s, chain) && Distinct(ids)
    requires forall id :: id in ids ==> IsLive(s, id)
    ensures Threads(EraseAll(s, ids), Reverse(ids) + chain)
    ensures |EraseAll(s, ids).slots| == |s.slots|
    ensures forall id :: 0 <= id < |s.slots| && id !in ids ==> EraseAll(s, ids).slots[id] == s.slots[id]
    decreases |ids|
  {
    if ids == [] {
      assert Reverse(ids) + chain == chain;
    } else {
      EraseThreads(s, chain, ids[0]);
      forall id | id in ids[1..] ensures IsLive(Erase(s, ids[0]), id) {
        assert id in ids;
      }
      EraseAllThreads(Erase(s, ids[0]), [ids[0]] + chain, ids[1..]);
      assert Reverse(ids) + chain == Reverse(ids[1..]) + ([ids[0]] + chain);
    }
  }

  lemma {:induction false} InsertAllThreads<R>(s: Store<R>, head: seq<nat>, tail: seq<nat>, rs: seq<R>)
    requires Threads(s, head + tail) && |rs| == |head|
    ensures InsertAll(s, rs).1 == head && Threads(InsertAll(s, rs).0, tail)
    ensures |InsertAll(s, rs).0.slots| == |s.slots|
    ensures forall id :: 0 <= id < |s.slots| && id !in head ==> InsertAll(s, rs).0.slots[id] == s.slots[id]
    decreases |rs|
  {
    if rs == [] {
      assert head + tail == tail;
    } else {
      InsertThreads(s, head + tail, rs[0]);
      assert (head + tail)[1..] == head[1..] + tail;
      InsertAllThreads(Step(s, InsertOp(rs[0])), head[1..], tail, rs[1..]);
      assert head == [head[0]] + head[1..];
    }
  }

  lemma {:induction false} ReverseMembers(ids: seq<nat>)
    ensures |Reverse(ids)| == |ids|
    ensures forall id :: id in Reverse(ids) <==> id in ids
  {
    if ids != [] {
      ReverseMembers(ids[1..]);
    }
  }

  /**
   Last out, first in: erasing live ids and then inserting as many records hands the same ids
   out in reverse, without new slots, and leaves the free list and all other slots as before.
   */
  lemma LastErasedFirstReused<R>(s: Store<R>, chain: seq<nat>, ids: seq<nat>, rs: seq<R>)
    requires Threads(s, chain) && Distinct(ids) && |rs| == |ids|
    requires forall id :: id in ids ==> IsLive(s, id)
    ensures var (t, reused) := InsertAll(EraseAll(s, ids), rs);
      && reused == Reverse(ids)
      && t.free == s.free && Threads(t, chain)
      && |t.slots| == |s.slots|
      && forall id :: 0 <= id < |s.slots| && id !in ids ==> t.slots[id] == s.slots[id]
  {
    EraseAllThreads(s, chain, ids);
    ReverseMembers(ids);
    InsertAllThreads(EraseAll(s, ids), Reverse(ids), chain, rs);
  }
}
