/**
 The slot allocator on values: a sequence of slots whose dead ones are threaded into a free
 list. The list starts at `free`; its end marker is the length of the sequence.
 */
module Slots {

  datatype Slot<R> = FreeSlot(index: nat) | Record(rec: R)

  datatype Store<R> = Store(slots: seq<Slot<R>>, free: nat)

  function Empty<R>(): Store<R> {
    Store([], 0)
  }

  predicate IsLive<R>(s: Store<R>, id: nat) {
    id < |s.slots| && s.slots[id].Record?
  }

  /** What an insert needs of the free list to stay inside the slots. */
  predicate CanInsert<R>(s: Store<R>) {
    s.free == |s.slots| || (s.free < |s.slots| && s.slots[s.free].FreeSlot?)
  }

  function Insert<R>(s: Store<R>, r: R): Store<R>
    requires CanInsert(s)
  {
    if s.free == |s.slots| then Store(s.slots + [Record(r)], s.free + 1)
    else Store(s.slots[s.free := Record(r)], s.slots[s.free].index)
  }

  function Erase<R>(s: Store<R>, id: nat): Store<R>
    requires id < |s.slots|
  {
    Store(s.slots[id := FreeSlot(s.free)], id)
  }

  // ---- the free list -------------------------------------------------------------------

  predicate Distinct(chain: seq<nat>) {
    forall i, j :: 0 <= i < j < |chain| ==> chain[i] != chain[j]
  }

  /** The slot after `chain[i]`, which for the last one is the end marker. */
  function After<R>(s: Store<R>, chain: seq<nat>, i: nat): nat
    requires i < |chain|
  {
    if i + 1 < |chain| then chain[i + 1] else |s.slots|
  }

  predicate LinkedAt<R>(s: Store<R>, chain: seq<nat>, i: nat)
    requires i < |chain|
  {
    chain[i] < |s.slots| && s.slots[chain[i]] == FreeSlot(After(s, chain, i))
  }

  /** `chain` lists the free slots as an insert meets them: every dead slot once, no live one. */
  ghost predicate Threads<R>(s: Store<R>, chain: seq<nat>) {
    && Distinct(chain)
    && (forall id :: 0 <= id < |s.slots| ==> (s.slots[id].FreeSlot? <==> id in chain))
    && (forall i :: 0 <= i < |chain| ==> LinkedAt(s, chain, i))
    && s.free == (if chain == [] then |s.slots| else chain[0])
  }

  ghost predicate Inv<R>(s: Store<R>) {
    CanInsert(s) && exists chain :: Threads(s, chain)
  }

  lemma ThreadsInv<R>(s: Store<R>, chain: seq<nat>)
    requires Threads(s, chain)
    ensures Inv(s)
  {
    assert chain != [] ==> LinkedAt(s, chain, 0);
  }

  lemma EmptyThreads<R>()
    ensures Threads(Empty<R>(), []) && Inv(Empty<R>())
  {
    assert Threads(Empty<R>(), []);
  }

  /** The slots grow only when the free list is empty, so the end marker is never stale. */
  lemma InsertThreads<R>(s: Store<R>, chain: seq<nat>, r: R)
    requires Threads(s, chain)
    ensures CanInsert(s) && !IsLive(s, s.free)
    ensures |Insert(s, r).slots| > |s.slots| <==> chain == []
    ensures Threads(Insert(s, r), if chain == [] then [] else chain[1..])
    ensures Inv(Insert(s, r))
  {
    if chain != [] {
      assert LinkedAt(s, chain, 0);
      var t := Insert(s, r);
      forall i | 0 <= i < |chain[1..]|
        ensures LinkedAt(t, chain[1..], i)
      {
        assert LinkedAt(s, chain, i + 1);
      }
      ThreadsInv(t, chain[1..]);
    } else {
      ThreadsInv(Insert(s, r), []);
    }
  }

  lemma InsertKeepsInv<R>(s: Store<R>, r: R)
    requires Inv(s)
    ensures Inv(Insert(s, r)) && |Insert(s, r).slots| == (if s.free == |s.slots| then |s.slots| + 1 else |s.slots|)
  {
    var chain :| Threads(s, chain);
    InsertThreads(s, chain, r);
  }

  lemma EraseThreads<R>(s: Store<R>, chain: seq<nat>, id: nat)
    requires Threads(s, chain) && IsLive(s, id)
    ensures Threads(Erase(s, id), [id] + chain)
    ensures Inv(Erase(s, id))
  {
    var t, c := Erase(s, id), [id] + chain;
    assert id !in chain;
    forall i | 0 <= i < |c|
      ensures LinkedAt(t, c, i)
    {
      if i > 0 {
        assert LinkedAt(s, chain, i - 1);
      }
    }
    ThreadsInv(t, c);
  }

  /** The free list is determined by the slots and the head. */
  lemma ThreadsUnique<R>(s: Store<R>, a: seq<nat>, b: seq<nat>)
    requires Threads(s, a) && Threads(s, b)
    ensures a == b
  {
    ThreadsAgree(s, a, b, |a|);
    ThreadsAgree(s, b, a, |b|);
  }

  lemma {:induction false} ThreadsAgree<R>(s: Store<R>, a: seq<nat>, b: seq<nat>, n: nat)
    requires Threads(s, a) && Threads(s, b) && n <= |a|
    ensures n <= |b| && a[..n] == b[..n]
  {
    if n > 0 {
      ThreadsAgree(s, a, b, n - 1);
      assert LinkedAt(s, a, n - 1);
      if n > 1 {
        assert a[n - 2] == a[..n - 1][n - 2] == b[n - 2];
        assert LinkedAt(s, a, n - 2) && LinkedAt(s, b, n - 2);
      }
      assert n <= |b| && a[n - 1] == b[n - 1];
      assert a[..n] == a[..n - 1] + [a[n - 1]];
      assert b[..n] == b[..n - 1] + [b[n - 1]];
    }
  }

  /**
   The allocator checks nothing when it erases: the free list survives an erase exactly if the
   slot was live. Erasing a dead slot ties the list into a loop.
   */
  lemma EraseKeepsInvIffLive<R>(s: Store<R>, id: nat)
    requires Inv(s) && id < |s.slots|
    ensures Inv(Erase(s, id)) <==> IsLive(s, id)
  {
    var chain :| Threads(s, chain);
    if IsLive(s, id) {
      EraseThreads(s, chain, id);
    } else if Inv(Erase(s, id)) {
      var c :| Threads(Erase(s, id), c);
      var p :| 0 <= p < |chain| && chain[p] == id;
      DeadEraseLoops(s, chain, id, c, p, p);
      assert false;
    }
  }

  lemma {:induction false} DeadEraseLoops<R>(s: Store<R>, chain: seq<nat>, id: nat, c: seq<nat>, p: nat, n: nat)
    requires Threads(s, chain) && id < |s.slots| && Threads(Erase(s, id), c)
    requires n <= p < |chain| && chain[p] == id
    ensures n + 1 < |c| && c[0] == id && c[n + 1] == chain[n]
  {
    var t := Erase(s, id);
    assert id in c && c[0] == id;
    if n == 0 {
      assert LinkedAt(t, c, 0) && LinkedAt(s, chain, 0);
    } else {
      DeadEraseLoops(s, chain, id, c, p, n - 1);
      assert chain[n - 1] != id;
      assert LinkedAt(s, chain, n - 1) && LinkedAt(s, chain, n) && LinkedAt(t, c, n);
    }
  }

  // ---- the finite map ------------------------------------------------------------------

  function Live<R>(s: Store<R>): map<nat, R> {
    map id | 0 <= id < |s.slots| && s.slots[id].Record? :: s.slots[id].rec
  }

  /** An insert hands out an id that was not live and maps just that id to the record. */
  lemma InsertRefinesMap<R>(s: Store<R>, r: R)
    requires Inv(s)
    ensures CanInsert(s) && s.free !in Live(s)
    ensures Live(Insert(s, r)) == Live(s)[s.free := r]
  {
    var chain :| Threads(s, chain);
    InsertThreads(s, chain, r);
    assert Live(Insert(s, r)).Keys == Live(s)[s.free := r].Keys;
  }

  lemma EraseRefinesMap<R>(s: Store<R>, id: nat)
    requires IsLive(s, id)
    ensures id in Live(s)
    ensures Live(Erase(s, id)) == Live(s) - {id}
  {
    assert Live(Erase(s, id)).Keys == (Live(s) - {id}).Keys;
  }

  // ---- how many slots there are --------------------------------------------------------

  function Ids(chain: seq<nat>): (ids: set<nat>)
    ensures forall id :: id in ids <==> id in chain
  {
    if chain == [] then {} else {chain[0]} + Ids(chain[1..])
  }

  lemma {:induction false} DistinctSize(chain: seq<nat>)
    requires Distinct(chain)
    ensures |Ids(chain)| == |chain|
  {
    if chain != [] {
      DistinctSize(chain[1..]);
      assert chain[0] !in chain[1..];
    }
  }

  function UpTo(n: nat): set<nat> {
    if n == 0 then {} else UpTo(n - 1) + {n - 1}
  }

  lemma {:induction false} UpToSize(n: nat)
    ensures |UpTo(n)| == n
    ensures forall id: nat :: id in UpTo(n) <==> id < n
  {
    if n > 0 {
      UpToSize(n - 1);
    }
  }

  lemma LiveXorFree<R>(s: Store<R>, chain: seq<nat>, id: nat)
    requires Threads(s, chain)
    ensures id < |s.slots| <==> IsLive(s, id) || id in chain
    ensures !(IsLive(s, id) && id in chain)
  {
    if id in chain {
      var i :| 0 <= i < |chain| && chain[i] == id;
      assert LinkedAt(s, chain, i);
    }
  }

  function LiveIds<R>(s: Store<R>): (ids: set<nat>)
    ensures forall id :: id in ids <==> IsLive(s, id)
  {
    Live(s).Keys
  }

  lemma LiveOrFree<R>(s: Store<R>, chain: seq<nat>, live: set<nat>, dead: set<nat>)
    requires Threads(s, chain)
    requires forall id :: id in live <==> IsLive(s, id)
    requires forall id :: id in dead <==> id in chain
    ensures UpTo(|s.slots|) == live + dead && live !! dead
  {
    UpToSize(|s.slots|);
    forall id: nat
      ensures id in UpTo(|s.slots|) <==> id in live || id in dead
      ensures !(id in live && id in dead)
    {
      LiveXorFree(s, chain, id);
    }
  }

  /** Every slot is either live or on the free list. */
  lemma LiveAndFree<R>(s: Store<R>, chain: seq<nat>)
    requires Threads(s, chain)
    ensures |Live(s)| + |chain| == |s.slots|
  {
    var live, dead := LiveIds(s), Ids(chain);
    LiveOrFree(s, chain, live, dead);
    DistinctSize(chain);
    UpToSize(|s.slots|);
    assert |live + dead| == |live| + |dead|;
  }
}
