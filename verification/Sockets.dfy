/**
 Who owns a socket. A `basic_socket` holds the id of a slot, or the unused marker; it is made
 from a fresh id, moved and destroyed, and its destruction releases the slot and closes the handle.
 */
module Sockets {
  import opened Slots
  import opened Container
  import SlotRuns

  /** `_Invalid` and `_S_unused`: the largest 32-bit id. */
  const UNUSED: nat := 0xFFFF_FFFF

  /** A slot index converted to the 32-bit id type. */
  function SocketId(index: nat): nat {
    index % 0x1_0000_0000
  }

  /** An index survives the conversion without becoming the unused marker exactly when it is below that marker. */
  lemma SocketIdIsIndex(index: nat)
    ensures SocketId(index) == index && index != UNUSED <==> index < 0xFFFF_FFFF
  {
  }

  /** While at most 2^32 - 1 records are live at once, every id handed out is the index of its slot and in use. */
  lemma ReturnedIdIsValid<R>(ops: seq<SlotRuns.Op<R>>, k: nat)
    requires SlotRuns.ErasesLive(ops) && k < |ops| && ops[k].InsertOp?
    requires SlotRuns.Peak(ops[..k + 1]) <= UNUSED
    ensures SocketId(SlotRuns.Exec(ops[..k]).free) == SlotRuns.Exec(ops[..k]).free != UNUSED
  {
    SlotRuns.ReturnedIdBelowPeak(ops, k);
    SocketIdIsIndex(SlotRuns.Exec(ops[..k]).free);
  }

  type Handle = int

  /** The slots, the socket objects with what they hold, and the handles opened and closed so far. */
  datatype World = World(
    store: Store<Handle>,
    sockets: map<nat, nat>,
    acquired: multiset<Handle>,
    closed: multiset<Handle>)

  datatype Step =
    | Make(socket: nat, handle: Handle)
    | Move(from: nat, to: nat)
    | Destroy(socket: nat)

  function NoSockets(): World {
    World(Empty(), map[], multiset{}, multiset{})
  }

  predicate Enabled(w: World, step: Step) {
    match step
    case Make(socket, _) => socket !in w.sockets && CanInsert(w.store)
    case Move(from, to) => from in w.sockets && to !in w.sockets
    case Destroy(socket) =>
      socket in w.sockets && (w.sockets[socket] == UNUSED || IsLive(w.store, w.sockets[socket]))
  }

  function Next(w: World, step: Step): World
    requires Enabled(w, step)
  {
    match step
    case Make(socket, handle) =>
      World(Insert(w.store, handle), w.sockets[socket := SocketId(w.store.free)],
            w.acquired + multiset{handle}, w.closed)
    case Move(from, to) => w.(sockets := w.sockets[to := w.sockets[from]][from := UNUSED])
    case Destroy(socket) =>
      var id := w.sockets[socket];
      if id == UNUSED then w.(sockets := w.sockets - {socket})
      else World(Erase(w.store, id), w.sockets - {socket}, w.acquired, w.closed + multiset{w.store.slots[id].rec})
  }

  /** The handles in live slots. */
  function Handles(slots: seq<Slot<Handle>>): multiset<Handle> {
    if slots == [] then multiset{}
    else Handles(slots[..|slots| - 1]) + HandleOf(slots[|slots| - 1])
  }

  predicate Holds(sockets: map<nat, nat>, s: nat, id: nat) {
    s in sockets && sockets[s] == id
  }

  ghost predicate Held(sockets: map<nat, nat>, id: nat) {
    exists s :: Holds(sockets, s, id)
  }

  /** A socket holds nothing or a live slot of its own, and every live slot has a holder. */
  ghost predicate Owned(sockets: map<nat, nat>, live: set<nat>) {
    && (forall s :: s in sockets ==> sockets[s] == UNUSED || sockets[s] in live)
    && (forall s, t :: s in sockets && t in sockets && sockets[s] == sockets[t] && sockets[s] != UNUSED ==> s == t)
    && (forall id :: id in live ==> id != UNUSED && Held(sockets, id))
  }

  lemma OwnedAfterMake(sockets: map<nat, nat>, live: set<nat>, socket: nat, id: nat)
    requires Owned(sockets, live) && socket !in sockets && id !in live && id != UNUSED
    ensures Owned(sockets[socket := id], live + {id})
  {
    forall other | other in live + {id} ensures Held(sockets[socket := id], other) {
      if other == id {
        assert Holds(sockets[socket := id], socket, id);
      } else {
        var s :| Holds(sockets, s, other);
        assert Holds(sockets[socket := id], s, other);
      }
    }
  }

  lemma OwnedAfterMove(sockets: map<nat, nat>, live: set<nat>, from: nat, to: nat)
    requires Owned(sockets, live) && from in sockets && to !in sockets
    ensures Owned(sockets[to := sockets[from]][from := UNUSED], live)
  {
    forall id | id in live ensures Held(sockets[to := sockets[from]][from := UNUSED], id) {
      var s :| Holds(sockets, s, id);
      assert Holds(sockets[to := sockets[from]][from := UNUSED], if s == from then to else s, id);
    }
  }

  lemma OwnedAfterDestroy(sockets: map<nat, nat>, live: set<nat>, socket: nat)
    requires Owned(sockets, live) && socket in sockets
    ensures Owned(sockets - {socket}, live - {sockets[socket]})
  {
    forall id | id in live - {sockets[socket]} ensures Held(sockets - {socket}, id) {
      var s :| Holds(sockets, s, id);
      assert Holds(sockets - {socket}, s, id);
    }
  }

  ghost predicate Sound(w: World) {
    && Slots.Inv(w.store)
    && |w.store.slots| <= UNUSED
    && Owned(w.sockets, Live(w.store).Keys)
    && Balanced(w)
  }

  function HandleOf(slot: Slot<Handle>): multiset<Handle> {
    match slot
    case Record(h) => multiset{h}
    case FreeSlot(_) => multiset{}
  }

  lemma Regroup(x: multiset<Handle>, y: multiset<Handle>, z: multiset<Handle>, p: multiset<Handle>, q: multiset<Handle>)
    requires x + p == y + q
    ensures (x + z) + p == (y + z) + q
  {
    assert (x + z) + p == (x + p) + z;
    assert (y + z) + q == (y + q) + z;
  }

  lemma HandlesSnoc(slots: seq<Slot<Handle>>, slot: Slot<Handle>)
    ensures Handles(slots + [slot]) == Handles(slots) + HandleOf(slot)
  {
    assert (slots + [slot])[..|slots|] == slots;
  }

  lemma {:induction false} HandlesAfterUpdate(slots: seq<Slot<Handle>>, i: nat, slot: Slot<Handle>)
    requires i < |slots|
    ensures Handles(slots[i := slot]) + HandleOf(slots[i]) == Handles(slots) + HandleOf(slot)
    decreases |slots|
  {
    hide Handles, HandleOf;
    var front, last := slots[..|slots| - 1], slots[|slots| - 1];
    assert slots == front + [last];
    HandlesSnoc(front, last);
    if i < |front| {
      HandlesAfterUpdate(front, i, slot);
      assert slots[i := slot] == front[i := slot] + [last];
      HandlesSnoc(front[i := slot], last);
      Regroup(Handles(front[i := slot]), Handles(front), HandleOf(last), HandleOf(slots[i]), HandleOf(slot));
    } else {
      assert slots[i := slot] == front + [slot];
      HandlesSnoc(front, slot);
      Swap(Handles(front), HandleOf(slot), HandleOf(last));
    }
  }

  lemma Swap(x: multiset<Handle>, p: multiset<Handle>, q: multiset<Handle>)
    ensures (x + p) + q == (x + q) + p
  {
  }

  lemma InsertHandles(s: Store<Handle>, h: Handle)
    requires Slots.Inv(s)
    ensures Handles(Insert(s, h).slots) == Handles(s.slots) + multiset{h}
  {
    if s.free == |s.slots| {
      HandlesSnoc(s.slots, Record(h));
    } else {
      HandlesAfterUpdate(s.slots, s.free, Record(h));
    }
  }

  /** How many slots an insert can find or make. */
  lemma FreeBelowLimit(s: Store<Handle>)
    requires Slots.Inv(s) && |s.slots| <= UNUSED
    ensures |Live(s)| <= |s.slots|
    ensures |Live(s)| < UNUSED <==> s.free < UNUSED
    ensures s.free == |s.slots| <==> |Live(s)| == |s.slots|
  {
    var chain :| Threads(s, chain);
    LiveAndFree(s, chain);
    assert chain != [] ==> LinkedAt(s, chain, 0);
  }

  lemma MakeKeepsOwned(w: World, socket: nat, handle: Handle)
    requires Sound(w) && socket !in w.sockets && w.store.free < UNUSED
    ensures Owned(w.sockets[socket := w.store.free], Live(Insert(w.store, handle)).Keys)
  {
    InsertRefinesMap(w.store, handle);
    OwnedAfterMake(w.sockets, Live(w.store).Keys, socket, w.store.free);
    assert Live(Insert(w.store, handle)).Keys == Live(w.store).Keys + {w.store.free};
  }

  /** The books balance: what was acquired is closed or still in a slot. */
  ghost predicate Balanced(w: World) {
    w.acquired == w.closed + Handles(w.store.slots)
  }

  lemma MakeKeepsBalance(w: World, socket: nat, handle: Handle)
    requires Slots.Inv(w.store) && Balanced(w) && Enabled(w, Make(socket, handle))
    ensures Balanced(Next(w, Make(socket, handle)))
  {
    InsertHandles(w.store, handle);
    var h, x := Handles(w.store.slots), multiset{handle};
    assert (w.closed + h) + x == w.closed + (h + x);
  }

  lemma DestroyKeepsBalance(w: World, socket: nat)
    requires Balanced(w) && Enabled(w, Destroy(socket))
    ensures Balanced(Next(w, Destroy(socket)))
  {
    var id := w.sockets[socket];
    if id != UNUSED {
      HandlesAfterUpdate(w.store.slots, id, FreeSlot(w.store.free));
      var h, x := Handles(Erase(w.store, id).slots), HandleOf(w.store.slots[id]);
      assert Handles(w.store.slots) == h + x;
      assert w.closed + (h + x) == (w.closed + x) + h;
    }
  }

  lemma MakeKeepsInv(w: World, socket: nat, handle: Handle)
    requires Sound(w) && socket !in w.sockets && |Live(w.store)| < UNUSED
    ensures Enabled(w, Make(socket, handle)) && Sound(Next(w, Make(socket, handle)))
  {
    FreeBelowLimit(w.store);
    InsertKeepsInv(w.store, handle);
    MakeKeepsBalance(w, socket, handle);
    MakeKeepsOwned(w, socket, handle);
    SocketIdIsIndex(w.store.free);
    var t := Next(w, Make(socket, handle));
    assert t.store == Insert(w.store, handle) && t.sockets == w.sockets[socket := w.store.free];
    assert Owned(t.sockets, Live(t.store).Keys);
  }

  lemma MoveKeepsInv(w: World, from: nat, to: nat)
    requires Sound(w) && Enabled(w, Move(from, to))
    ensures Sound(Next(w, Move(from, to)))
  {
    OwnedAfterMove(w.sockets, Live(w.store).Keys, from, to);
  }

  lemma DestroyKeepsOwned(w: World, socket: nat)
    requires Sound(w) && socket in w.sockets && w.sockets[socket] != UNUSED
    ensures Owned(w.sockets - {socket}, Live(Erase(w.store, w.sockets[socket])).Keys)
  {
    var id := w.sockets[socket];
    EraseRefinesMap(w.store, id);
    OwnedAfterDestroy(w.sockets, Live(w.store).Keys, socket);
    assert Live(Erase(w.store, id)).Keys == Live(w.store).Keys - {id};
  }

  lemma DestroyKeepsInv(w: World, socket: nat)
    requires Sound(w) && socket in w.sockets
    ensures Enabled(w, Destroy(socket)) && Sound(Next(w, Destroy(socket)))
  {
    var id := w.sockets[socket];
    if id == UNUSED {
      OwnedAfterDestroy(w.sockets, Live(w.store).Keys, socket);
      assert Live(w.store).Keys - {id} == Live(w.store).Keys;
    } else {
      assert id in Live(w.store).Keys;
      EraseKeepsInvIffLive(w.store, id);
      DestroyKeepsOwned(w, socket);
    }
    DestroyKeepsBalance(w, socket);
  }

  /**
   Making a socket keeps ownership exactly while fewer than 2^32 - 1 sockets are open: the next one
   gets a slot whose index is the id that means "unused", so that nothing owns the slot.
   */
  lemma MakeKeepsOwnershipIffIdsLast(w: World, socket: nat, handle: Handle)
    requires Sound(w) && Enabled(w, Make(socket, handle))
    ensures var t := Next(w, Make(socket, handle));
      && (Owned(t.sockets, Live(t.store).Keys) <==> |Live(w.store)| < UNUSED)
      && (Sound(t) <==> |Live(w.store)| < UNUSED)
  {
    FreeBelowLimit(w.store);
    if |Live(w.store)| < UNUSED {
      MakeKeepsInv(w, socket, handle);
    } else {
      assert UNUSED in Live(Next(w, Make(socket, handle)).store);
    }
  }

  /**
   What that costs. A handle whose socket is made and destroyed again is closed exactly if fewer than
   2^32 - 1 sockets were open; otherwise it stays open in a slot that no socket can release.
   */
  lemma HandleIsClosedIffIdsLast(w: World, socket: nat, handle: Handle)
    requires Sound(w) && socket !in w.sockets
    ensures Enabled(w, Make(socket, handle)) && Enabled(Next(w, Make(socket, handle)), Destroy(socket))
    ensures var t := Next(Next(w, Make(socket, handle)), Destroy(socket));
      && (t.closed == w.closed + multiset{handle} <==> |Live(w.store)| < UNUSED)
      && (t.closed == w.closed <==> |Live(w.store)| == UNUSED)
      && (|Live(w.store)| == UNUSED ==> IsLive(t.store, UNUSED) && t.store.slots[UNUSED].rec == handle)
  {
    FreeBelowLimit(w.store);
    InsertRefinesMap(w.store, handle);
    var made := Next(w, Make(socket, handle));
    assert made.sockets[socket] == SocketId(w.store.free);
    assert IsLive(made.store, w.store.free) && made.store.slots[w.store.free].rec == handle;
    SocketIdIsIndex(w.store.free);
    assert w.closed[handle] < (w.closed + multiset{handle})[handle];
  }

  // ---- runs ----------------------------------------------------------------------------

  /** Objects are used between their construction and destruction only, and ids do not run out. */
  ghost predicate Run(w: World, steps: seq<Step>, t: World)
    decreases |steps|
  {
    if steps == [] then t == w
    else
      && (steps[0].Make? ==> |Live(w.store)| < UNUSED)
      && (steps[0].Destroy? ==> steps[0].socket in w.sockets)
      && Enabled(w, steps[0])
      && Run(Next(w, steps[0]), steps[1..], t)
  }

  lemma {:induction false} RunKeepsInv(w: World, steps: seq<Step>, t: World)
    requires Sound(w) && Run(w, steps, t)
    ensures Sound(t)
    decreases |steps|
  {
    if steps != [] {
      match steps[0] {
        case Make(socket, handle) => MakeKeepsInv(w, socket, handle);
        case Move(from, to) => MoveKeepsInv(w, from, to);
        case Destroy(socket) => DestroyKeepsInv(w, socket);
      }
      RunKeepsInv(Next(w, steps[0]), steps[1..], t);
    }
  }

  /** In every reachable world each live slot has one owner, and a moved-from socket owns nothing. */
  lemma EachSlotHasOneOwner(steps: seq<Step>, t: World, id: nat)
    requires Run(NoSockets(), steps, t) && IsLive(t.store, id)
    ensures exists s :: Holds(t.sockets, s, id) && forall o :: Holds(t.sockets, o, id) ==> o == s
  {
    EmptyThreads<Handle>();
    RunKeepsInv(NoSockets(), steps, t);
    assert id in Live(t.store).Keys;
    var s :| Holds(t.sockets, s, id);
    assert forall o :: Holds(t.sockets, o, id) ==> o == s;
  }

  lemma {:induction false} NoRecordsNoHandles(slots: seq<Slot<Handle>>)
    requires forall i :: 0 <= i < |slots| ==> slots[i].FreeSlot?
    ensures Handles(slots) == multiset{}
  {
    if slots != [] {
      NoRecordsNoHandles(slots[..|slots| - 1]);
    }
  }

  /**
   At all times the handles opened are those closed and those in live slots, counted with
   repetitions; once no socket holds a slot, every handle has been closed exactly once.
   */
  lemma HandlesAreClosedOnce(steps: seq<Step>, t: World)
    requires Run(NoSockets(), steps, t)
    ensures t.acquired == t.closed + Handles(t.store.slots)
    ensures (forall s :: s in t.sockets ==> t.sockets[s] == UNUSED) ==> t.closed == t.acquired && Live(t.store) == map[]
  {
    EmptyThreads<Handle>();
    RunKeepsInv(NoSockets(), steps, t);
    if forall s :: s in t.sockets ==> t.sockets[s] == UNUSED {
      forall i | 0 <= i < |t.store.slots| ensures t.store.slots[i].FreeSlot? {
        assert i in Live(t.store).Keys ==> Held(t.sockets, i);
      }
      NoRecordsNoHandles(t.store.slots);
    }
  }

  lemma {:induction false} RunThen(w: World, steps: seq<Step>, t: World, step: Step)
    requires Run(w, steps, t) && Enabled(t, step)
    requires (step.Make? ==> |Live(t.store)| < UNUSED) && (step.Destroy? ==> step.socket in t.sockets)
    ensures Run(w, steps + [step], Next(t, step))
    decreases |steps|
  {
    hide Enabled, Next;
    var more := steps + [step];
    if steps == [] {
      assert more[1..] == [];
    } else {
      RunThen(Next(w, steps[0]), steps[1..], t, step);
      assert more[0] == steps[0] && more[1..] == steps[1..] + [step];
    }
  }

  /** Any number of sockets up to 2^32 - 1 can be open at once. */
  lemma {:induction false} ManyCanBeOpen(n: nat) returns (steps: seq<Step>, t: World)
    requires n <= UNUSED
    ensures Run(NoSockets(), steps, t) && Sound(t)
    ensures |Live(t.store)| == n && forall s :: s in t.sockets ==> s < n
  {
    if n == 0 {
      steps, t := [], NoSockets();
      EmptyThreads<Handle>();
    } else {
      steps, t := ManyCanBeOpen(n - 1);
      var step := Make(n - 1, 0);
      MakeKeepsInv(t, n - 1, 0);
      InsertRefinesMap(t.store, 0);
      RunThen(NoSockets(), steps, t, step);
      steps, t := steps + [step], Next(t, step);
    }
  }

  /** So a world is reachable in which the next handle is never closed. */
  lemma HandleCanLeak(handle: Handle) returns (steps: seq<Step>, w: World, socket: nat)
    ensures Run(NoSockets(), steps, w) && socket !in w.sockets && Enabled(w, Make(socket, handle))
    ensures var made := Next(w, Make(socket, handle));
      Enabled(made, Destroy(socket)) && Next(made, Destroy(socket)).closed == w.closed
  {
    steps, w := ManyCanBeOpen(UNUSED);
    socket := UNUSED;
    HandleIsClosedIffIdsLast(w, socket, handle);
  }

  // ---- the objects ---------------------------------------------------------------------

  class Context {
    const sockets: Container<Handle>
    var closed: seq<Handle>
    ghost var acquired: multiset<Handle>
    ghost var objects: map<nat, BasicSocket>  // the sockets on this context, each under its name
    ghost var names: nat

    ghost predicate Valid()
      reads this, sockets, objects.Values
    {
      && Slots.Inv(sockets.View())
      && forall n :: n in objects ==> n < names && objects[n].name == n && objects[n].context == this
    }

    ghost function Held(): map<nat, nat>
      reads this, objects.Values
    {
      map n | n in objects :: objects[n].id
    }

    /** The world that these objects make up. */
    ghost function View(): World
      reads this, sockets, objects.Values
    {
      World(sockets.View(), Held(), acquired, multiset(closed))
    }

    constructor ()
      ensures Valid() && fresh(sockets) && View() == NoSockets()
    {
      sockets := new Container<Handle>();
      closed, acquired, objects, names := [], multiset{}, map[], 0;
    }

    /** A new socket on this context gets the next name. */
    ghost method Register(s: BasicSocket)
      requires Valid() && s.context == this && s.name == names
      modifies `objects, `names
      ensures Valid() && names == old(names) + 1 && objects == old(objects)[s.name := s]
      ensures View() == old(View()).(sockets := old(Held())[s.name := s.id])
    {
      ghost var held := Held();
      objects, names := objects[s.name := s], names + 1;
      assert Held() == held[s.name := s.id];
    }

    /** A new handle gets the id of the slot it is stored in; nobody holds that id yet. */
    method MakeSocket(handle: Handle) returns (id: nat)
      requires Valid()
      modifies `acquired, sockets
      ensures Valid() && id == SocketId(old(sockets.free))
      ensures View() == old(View()).(store := Insert(old(sockets.View()), handle),
                                     acquired := old(acquired) + multiset{handle})
    {
      var index := sockets.Insert(handle);
      id := SocketId(index);
      acquired := acquired + multiset{handle};
    }

    /** The slot is erased and its handle closed. */
    method Release(id: nat)
      requires Valid() && IsLive(sockets.View(), id)
      modifies `closed, sockets
      ensures Valid()
      ensures View() == old(View()).(store := Erase(old(sockets.View()), id),
                                     closed := old(multiset(closed)) + multiset{old(sockets.View()).slots[id].rec})
    {
      var found := sockets.At(id);
      sockets.Erase(id);
      closed := closed + [found.rec];
    }
  }

  class BasicSocket {
    const context: Context
    ghost const name: nat
    var id: nat

    ghost predicate Valid()
      reads this, context, context.sockets, context.objects.Values
    {
      context.Valid() && name in context.objects && context.objects[name] == this
    }

    /** Given the id of a slot that nobody holds, the new socket is its only owner, and all others keep theirs. */
    constructor (context: Context, id: nat)
      requires context.Valid()
      modifies context`objects, context`names
      ensures Valid() && this.context == context && name == old(context.names)
      ensures context.View() == old(context.View()).(sockets := old(context.Held())[name := id])
      ensures
        var live := Live(context.sockets.View()).Keys;
        id in live && id != UNUSED && Owned(old(context.Held()), live - {id}) ==> Owned(context.Held(), live)
    {
      this.context, this.id, this.name := context, id, context.names;
      new;
      hide Slots.Inv, Live;
      ghost var held, live := context.Held(), Live(context.sockets.View()).Keys;
      context.Register(this);
      if id in live && id != UNUSED && Owned(held, live - {id}) {
        OwnedAfterMake(held, live - {id}, name, id);
        assert live - {id} + {id} == live;
      }
    }

    /** `exchange(_D_id, _S_unused)`: the id is given away and the socket owns nothing. */
    method GiveAway() returns (given: nat)
      requires Valid()
      modifies `id
      ensures Valid() && given == old(id) && id == UNUSED
      ensures context.View() == old(context.View()).(sockets := old(context.Held())[name := UNUSED])
    {
      ghost var held := context.Held();
      given := id;
      id := UNUSED;
      assert context.Held() == held[name := UNUSED];
    }

    /** A move hands the slot over, and the source is left owning nothing. */
    constructor Move(other: BasicSocket)
      requires other.Valid()
      modifies other`id, other.context`objects, other.context`names
      ensures Valid() && context == other.context && other.Valid()
      ensures id == old(other.id) && other.id == UNUSED
      ensures Enabled(old(other.context.View()), Step.Move(other.name, name))
      ensures context.View() == Next(old(other.context.View()), Step.Move(other.name, name))
      ensures old(Sound(other.context.View())) ==> Sound(context.View())
    {
      ghost var w := other.context.View();
      var given := other.GiveAway();
      context, id, name := other.context, given, other.context.names;
      new;
      hide Sound, Slots.Inv, Live, Erase, Insert, Owned;
      context.Register(this);
      if Sound(w) {
        MoveKeepsInv(w, other.name, name);
      }
      assert w.sockets[other.name := UNUSED][name := given] == w.sockets[name := given][other.name := UNUSED];
    }

    /** The destructor: an unused socket releases nothing, any other its slot and handle. */
    method Destroy()
      requires Valid() && (id == UNUSED || IsLive(context.sockets.View(), id))
      modifies context, context.sockets
      ensures context.Valid() && name !in context.objects
      ensures Enabled(old(context.View()), Step.Destroy(name))
      ensures context.View() == Next(old(context.View()), Step.Destroy(name))
      ensures old(Sound(context.View())) ==> Sound(context.View())
    {
      hide Sound, Slots.Inv, Live, Erase, Insert;
      ghost var w := context.View();
      if Sound(w) {
        DestroyKeepsInv(w, name);
      }
      if id != UNUSED {
        context.Release(id);
      }
      context.objects := context.objects - {name};
      assert context.Held() == w.sockets - {name};
    }
  }

  /**
   Opening a socket: the handle that the system gave goes into a slot, and a socket is made from the
   id. A negative descriptor leaves everything as it was.
   */
  method Open(context: Context, fd: int) returns (s: BasicSocket?)
    requires context.Valid()
    modifies context`acquired, context`objects, context`names, context.sockets
    ensures context.Valid() && (s == null <==> fd < 0)
    ensures s == null ==> context.View() == old(context.View())
    ensures s != null ==>
      && s.Valid() && s.context == context
      && Enabled(old(context.View()), Make(s.name, fd))
      && context.View() == Next(old(context.View()), Make(s.name, fd))
      && (old(Sound(context.View())) ==> (Sound(context.View()) <==> |old(Live(context.sockets.View()))| < UNUSED))
  {
    if fd < 0 {
      return null;
    }
    ghost var w := context.View();
    if Sound(w) {
      MakeKeepsOwnershipIffIdsLast(w, context.names, fd);
    }
    var id := context.MakeSocket(fd);
    s := new BasicSocket(context, id);
  }
}
