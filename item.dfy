/** The `Item` entity and the repository table that holds items. */
module Model {
  import opened Wrappers

  /** The status value that processing writes. */
  const PROCESSED: string := "PROCESSED"

  /** An item: every field except the id is a Java `String` and may be null. */
  datatype Item = Item(
    id: int,
    name: Option<string>,
    description: Option<string>,
    status: Option<string>,
    email: Option<string>)

  /** The repository's table, keyed by item id. */
  type Store = map<int, Item>

  /** The repository files every item under its own id. */
  ghost predicate WellKeyed(store: Store) {
    forall k :: k in store ==> store[k].id == k
  }

  /** Status is set (not null) and is not yet `PROCESSED`. */
  predicate IsPending(item: Item) {
    item.status.Some? && item.status.value != PROCESSED
  }

  /** `setStatus("PROCESSED")`: the one field processing changes. */
  function MarkProcessed(item: Item): (r: Item)
    ensures r.status == Some(PROCESSED) && !IsPending(r)
    ensures r.id == item.id && r.name == item.name && r.description == item.description
    ensures r.email == item.email
  {
    item.(status := Some(PROCESSED))
  }
}
