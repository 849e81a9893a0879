/** The container as the object it is. */
module Container {
  import opened Slots

  class Container<R> {
    var records: seq<Slot<R>>
    var free: nat

    function View(): Store<R>
      reads this
    {
      Store(records, free)
    }

    constructor ()
      ensures View() == Empty() && Inv(View())
    {
      records, free := [], 0;
      new;
      EmptyThreads<R>();
    }

    /** Returns the slot's index; making a socket id of it is the caller's business. */
    method Insert(r: R) returns (id: nat)
      requires Inv(View())
      modifies this
      ensures Inv(View()) && View() == Slots.Insert(old(View()), r)
      ensures id == old(free)
      ensures id !in old(Live(View())) && Live(View()) == old(Live(View()))[id := r]
    {
      ghost var chain :| Threads(View(), chain);
      InsertThreads(View(), chain, r);
      InsertRefinesMap(View(), r);
      if free == |records| {
        records := records + [Record(r)];
        id, free := free, free + 1;
      } else {
        id, free := free, records[free].index;
        records := records[id := Record(r)];
      }
    }

    method Erase(id: nat)
      requires Inv(View()) && id in Live(View())
      modifies this
      ensures Inv(View()) && View() == Slots.Erase(old(View()), id)
      ensures Live(View()) == old(Live(View())) - {id}
    {
      EraseKeepsInvIffLive(View(), id);
      EraseRefinesMap(View(), id);
      records, free := records[id := FreeSlot(free)], id;
    }

    /** `operator[]`; the record of a dead slot is a bad variant access. */
    method At(id: nat) returns (r: Lookup<R>)
      requires id < |records|
      ensures r == if id in Live(View()) then Found(Live(View())[id]) else BadAccess
    {
      match records[id] {
        case Record(rec) => r := Found(rec);
        case FreeSlot(_) => r := BadAccess;
      }
    }
  }

  datatype Lookup<R> = Found(rec: R) | BadAccess
}
