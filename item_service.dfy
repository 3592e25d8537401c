/**
  The item service: CRUD calls that delegate to the repository, and the
  "process all items" batch over the repository's id listing.

  The repository is the field `store`. The listing the repository returns
  and the set of ids whose save throws are parameters of the batch, since
  the repository decides both. The thread pool is replaced by one of its
  schedules: the tasks run one after another in listing order.
*/
module Service {
  import opened Wrappers
  import opened Model
  import opened ItemProcessing

  class ItemService {
    /** The repository's table. */
    var store: Store
    /** The shared list the batch fills and returns. */
    var processedItems: seq<Item>
    /** The shared counter of processed items. */
    var processedCount: int

    ghost predicate Valid()
      reads this
    {
      WellKeyed(store) && processedCount == |processedItems|
    }

    constructor (repository: Store)
      requires WellKeyed(repository)
      ensures Valid()
      ensures store == repository && processedItems == [] && processedCount == 0
    {
      store := repository;
      processedItems := [];
      processedCount := 0;
    }

    /** `findAll`: every item of the table, each under its own id. */
    function FindAll(): (items: set<Item>)
      reads this
      requires Valid()
      ensures forall item :: item in items <==> item.id in store && store[item.id] == item
    {
      set k | k in store :: store[k]
    }

    /** `findById`: the item under `id`, or nothing. */
    function FindById(id: int): (found: Option<Item>)
      reads this
      requires Valid()
      ensures found.Some? <==> id in store
      ensures found.Some? ==> found.value == store[id] && found.value.id == id
    {
      if id in store then Some(store[id]) else None
    }

    /** `save`: an upsert under the item's id. */
    method Save(item: Item) returns (saved: Item)
      requires Valid()
      modifies this
      ensures Valid()
      ensures saved == item
      ensures store == old(store)[item.id := item]
      ensures processedItems == old(processedItems) && processedCount == old(processedCount)
    {
      store := store[item.id := item];
      saved := item;
    }

    /** `deleteById`: removes the entry under `id`, if any. */
    method DeleteById(id: int)
      requires Valid()
      modifies this
      ensures Valid()
      ensures store == old(store) - {id}
      ensures processedItems == old(processedItems) && processedCount == old(processedCount)
    {
      store := store - {id};
    }

    /** One task of the batch, for the listed id `id`. */
    method ProcessOne(id: int, failingSaves: set<int>)
      requires Valid()
      modifies this
      ensures Valid()
      ensures Batch(store, processedItems) == Step(old(Batch(store, processedItems)), id, failingSaves)
    {
      var found := FindById(id);
      if found.None? {
        return;
      }
      var item := found.value;
      if item.status.None? {
        // the status comparison throws on null; the exception is caught
        return;
      }
      if item.status.value == PROCESSED {
        return;
      }
      item := item.(status := Some(PROCESSED));
      if id in failingSaves {
        // the save throws; the exception is caught and nothing is recorded
        return;
      }
      store := store[item.id := item];
      processedItems := processedItems + [item];
      processedCount := processedCount + 1;
    }

    /** `processItemsAsync`: clears the shared list and counter, runs one task
        per listed id and returns the shared list once every task is done. */
    method ProcessItemsAsync(itemIds: seq<int>, failingSaves: set<int>) returns (result: seq<Item>)
      requires Valid()
      modifies this
      ensures Valid()
      ensures Batch(store, processedItems) == ProcessAll(old(store), itemIds, failingSaves)
      ensures result == processedItems && processedCount == |result|
    {
      processedItems := [];
      processedCount := 0;
      var i := 0;
      while i < |itemIds|
        invariant 0 <= i <= |itemIds|
        invariant Valid()
        invariant Batch(store, processedItems) == Run(Batch(old(store), []), itemIds[..i], failingSaves)
      {
        ProcessOne(itemIds[i], failingSaves);
        assert itemIds[..i + 1][..i] == itemIds[..i];
        i := i + 1;
      }
      assert itemIds[..i] == itemIds;
      result := processedItems;
    }
  }

  /** Two batches in a row over the same listing with nothing in between:
      the first returns only processed items, the second returns nothing
      and leaves the table as the first left it. */
  method ProcessTwice(service: ItemService, itemIds: seq<int>, failingSaves: set<int>)
    returns (first: seq<Item>, second: seq<Item>)
    requires service.Valid()
    modifies service
    ensures service.Valid()
    ensures forall r :: r in first ==> r.status == Some(PROCESSED)
    ensures second == [] && service.processedCount == 0
    ensures service.store == ProcessAll(old(service.store), itemIds, failingSaves).store
  {
    ResultAllProcessed(service.store, itemIds, failingSaves);
    SecondRunEmpty(service.store, itemIds, itemIds, failingSaves);
    first := service.ProcessItemsAsync(itemIds, failingSaves);
    second := service.ProcessItemsAsync(itemIds, failingSaves);
  }
}
