/**
  The "process all items" batch as a function of the repository table.

  Each listed id is one task. The tasks of a batch touch disjoint ids, so
  running them one after another in listing order is one legal schedule of
  the thread pool; `Run` is that schedule, the one this model follows.
  `Expected` and `ExpectedStore` say per id, reading each item from the
  table as it was before the batch, what a batch produces; the two agree
  whenever the listing has no repeated id, and then the order of the
  listing changes the result's order only (`ListingOrderIrrelevant`).
*/
module ItemProcessing {
  import opened Wrappers
  import opened Model

  /** What one task does with its id. */
  datatype Outcome =
    | Missing            // no item under the id: skipped
    | AlreadyProcessed   // status already PROCESSED: skipped
    | Failed             // an exception was caught: skipped
    | Processed(item: Item)

  /** One task: fetch by id, skip a missing or already processed item,
      otherwise mark it and save it. A null status throws on the
      comparison and a save in `failingSaves` throws; both are caught. */
  function Attempt(store: Store, id: int, failingSaves: set<int>): Outcome {
    if id !in store then Missing
    else
      var item := store[id];
      if item.status.None? then Failed
      else if item.status.value == PROCESSED then AlreadyProcessed
      else if id in failingSaves then Failed
      else Processed(MarkProcessed(item))
  }

  /** The state a batch works on: the table and the list of processed items. */
  datatype Batch = Batch(store: Store, processed: seq<Item>)

  /** A task's effect: a processed item is saved and appended. */
  function Step(b: Batch, id: int, failingSaves: set<int>): Batch {
    match Attempt(b.store, id, failingSaves)
    case Processed(item) => Batch(b.store[item.id := item], b.processed + [item])
    case _ => b
  }

  /** The tasks for `ids`, run in list order. */
  function Run(b: Batch, ids: seq<int>, failingSaves: set<int>): Batch
    decreases |ids|
  {
    if ids == [] then b
    else Step(Run(b, ids[..|ids| - 1], failingSaves), ids[|ids| - 1], failingSaves)
  }

  /** A whole batch: it starts from an empty list. */
  function ProcessAll(store: Store, ids: seq<int>, failingSaves: set<int>): Batch {
    Run(Batch(store, []), ids, failingSaves)
  }

  /** An id whose task succeeds against the table `store`. */
  predicate Selected(store: Store, id: int, failingSaves: set<int>) {
    id in store && IsPending(store[id]) && id !in failingSaves
  }

  predicate Distinct(ids: seq<int>) {
    forall i, j :: 0 <= i < j < |ids| ==> ids[i] != ids[j]
  }

  /** Reference result: the marked item of every selected id, in list order,
      each read from the table as it was before the batch. */
  function Expected(store: Store, ids: seq<int>, failingSaves: set<int>): seq<Item>
    decreases |ids|
  {
    if ids == [] then []
    else
      var last := ids[|ids| - 1];
      Expected(store, ids[..|ids| - 1], failingSaves)
        + (if Selected(store, last, failingSaves) then [MarkProcessed(store[last])] else [])
  }

  /** Reference table after a batch: selected listed ids are marked, every
      other entry is as before. */
  function ExpectedStore(store: Store, ids: seq<int>, failingSaves: set<int>): Store {
    map k | k in store :: if k in ids && Selected(store, k, failingSaves) then MarkProcessed(store[k]) else store[k]
  }

  // ---------------------------------------------------------------------
  // One task.

  /** A task succeeds exactly for a selected id, and its item is the table's
      item with only the status changed. */
  lemma AttemptProcessesSelected(store: Store, id: int, failingSaves: set<int>)
    ensures Attempt(store, id, failingSaves).Processed? <==> Selected(store, id, failingSaves)
    ensures Attempt(store, id, failingSaves).Processed? ==>
      Attempt(store, id, failingSaves).item == MarkProcessed(store[id])
    ensures id !in store ==> Attempt(store, id, failingSaves) == Missing
    ensures id in store && store[id].status == Some(PROCESSED) ==>
      Attempt(store, id, failingSaves) == AlreadyProcessed
    ensures id in store && (store[id].status.None? || (IsPending(store[id]) && id in failingSaves)) ==>
      Attempt(store, id, failingSaves) == Failed
  {
  }

  /** A missing id, an already processed item and a caught exception leave
      both the table and the list as they were. */
  lemma SkippedStepChangesNothing(b: Batch, id: int, failingSaves: set<int>)
    requires !Selected(b.store, id, failingSaves)
    ensures Step(b, id, failingSaves) == b
  {
  }

  // ---------------------------------------------------------------------
  // What a run does to the table.

  /** Each entry after a run is its old self or, for a selected listed id,
      its marked self; no entry is added or removed, and unlisted ids are
      untouched. */
  ghost predicate Evolved(before: Store, after: Store, ids: seq<int>, failingSaves: set<int>) {
    && after.Keys == before.Keys
    && forall k :: k in after ==>
         after[k] == before[k]
         || (k in ids && Selected(before, k, failingSaves) && after[k] == MarkProcessed(before[k]))
  }

  lemma {:induction false} RunEvolvesStore(b: Batch, ids: seq<int>, failingSaves: set<int>)
    requires WellKeyed(b.store)
    ensures WellKeyed(Run(b, ids, failingSaves).store)
    ensures Evolved(b.store, Run(b, ids, failingSaves).store, ids, failingSaves)
    decreases |ids|
  {
    if ids != [] {
      var front, x := ids[..|ids| - 1], ids[|ids| - 1];
      RunEvolvesStore(b, front, failingSaves);
      var mid := Run(b, front, failingSaves);
      assert forall k :: k in front ==> k in ids;
      if Selected(mid.store, x, failingSaves) {
        var after := Run(b, ids, failingSaves).store;
        assert after == mid.store[x := MarkProcessed(mid.store[x])];
        assert mid.store[x] == b.store[x];
      }
    }
  }

  /** After a run no listed id is selected any more: it was processed, or
      it is missing, already processed or failing. */
  lemma {:induction false} RunLeavesNothingSelected(b: Batch, ids: seq<int>, failingSaves: set<int>)
    requires WellKeyed(b.store)
    ensures forall k :: k in ids ==> !Selected(Run(b, ids, failingSaves).store, k, failingSaves)
    decreases |ids|
  {
    if ids != [] {
      var front, x := ids[..|ids| - 1], ids[|ids| - 1];
      RunLeavesNothingSelected(b, front, failingSaves);
      RunEvolvesStore(b, front, failingSaves);
      forall k | k in ids ensures !Selected(Run(b, ids, failingSaves).store, k, failingSaves) {
        if k != x {
          assert k in front;
        }
      }
    }
  }

  /** A run over ids none of which is selected changes nothing. */
  lemma {:induction false} RunOverUnselected(b: Batch, ids: seq<int>, failingSaves: set<int>)
    requires forall k :: k in ids ==> !Selected(b.store, k, failingSaves)
    ensures Run(b, ids, failingSaves) == b
    decreases |ids|
  {
    if ids != [] {
      var front := ids[..|ids| - 1];
      assert forall k :: k in front ==> k in ids;
      RunOverUnselected(b, front, failingSaves);
      SkippedStepChangesNothing(b, ids[|ids| - 1], failingSaves);
    }
  }

  // ---------------------------------------------------------------------
  // What a run adds to the list.

  /** The items a run appends: each is the marked form of the entry a
      selected listed id had before the run, and it is what the table holds
      under its id afterwards. Items already in the list stay. */
  lemma {:induction false} RunAppendsProcessed(b: Batch, ids: seq<int>, failingSaves: set<int>)
    requires WellKeyed(b.store)
    ensures |Run(b, ids, failingSaves).processed| >= |b.processed|
    ensures Run(b, ids, failingSaves).processed[..|b.processed|] == b.processed
    ensures forall i :: |b.processed| <= i < |Run(b, ids, failingSaves).processed| ==>
      var r := Run(b, ids, failingSaves).processed[i];
      && r.id in ids
      && Selected(b.store, r.id, failingSaves)
      && r == MarkProcessed(b.store[r.id])
      && r.id in Run(b, ids, failingSaves).store
      && Run(b, ids, failingSaves).store[r.id] == r
    decreases |ids|
  {
    if ids != [] {
      var front, x := ids[..|ids| - 1], ids[|ids| - 1];
      RunAppendsProcessed(b, front, failingSaves);
      RunEvolvesStore(b, front, failingSaves);
      var mid := Run(b, front, failingSaves);
      var after := Run(b, ids, failingSaves);
      assert forall k :: k in front ==> k in ids;
      if Selected(mid.store, x, failingSaves) {
        assert mid.store[x] == b.store[x];
        var item := MarkProcessed(b.store[x]);
        assert after == Batch(mid.store[x := item], mid.processed + [item]);
        forall i | |b.processed| <= i < |after.processed|
          ensures after.processed[i].id in after.store && after.store[after.processed[i].id] == after.processed[i]
        {
          if i < |mid.processed| {
            assert after.processed[i] == mid.processed[i];
          }
        }
        assert after.processed[..|b.processed|] == mid.processed[..|b.processed|];
      } else {
        assert after == mid;
      }
    }
  }

  /** Every item a batch returns has status `PROCESSED`. */
  lemma ResultAllProcessed(store: Store, ids: seq<int>, failingSaves: set<int>)
    requires WellKeyed(store)
    ensures forall r :: r in ProcessAll(store, ids, failingSaves).processed ==> r.status == Some(PROCESSED)
  {
    RunAppendsProcessed(Batch(store, []), ids, failingSaves);
  }

  /** Processing changes only the status: every returned item agrees with
      the table's item under its id in id, name, description and email. */
  lemma ResultKeepsOtherFields(store: Store, ids: seq<int>, failingSaves: set<int>)
    requires WellKeyed(store)
    ensures forall r :: r in ProcessAll(store, ids, failingSaves).processed ==>
      && r.id in store
      && r.id == store[r.id].id && r.name == store[r.id].name
      && r.description == store[r.id].description && r.email == store[r.id].email
  {
    RunAppendsProcessed(Batch(store, []), ids, failingSaves);
  }

  /** No item is returned for an id whose task cannot succeed: a missing
      id, an already processed item, a null status or a failing save. */
  lemma UnselectedNotReturned(store: Store, ids: seq<int>, failingSaves: set<int>, id: int)
    requires WellKeyed(store)
    requires !Selected(store, id, failingSaves)
    ensures forall r :: r in ProcessAll(store, ids, failingSaves).processed ==> r.id != id
  {
    RunAppendsProcessed(Batch(store, []), ids, failingSaves);
  }

  // ---------------------------------------------------------------------
  // The run agrees with the per-id reference: no task depends on an earlier one.

  lemma {:induction false} RunMatchesReference(store: Store, ids: seq<int>, failingSaves: set<int>)
    requires WellKeyed(store) && Distinct(ids)
    ensures ProcessAll(store, ids, failingSaves)
      == Batch(ExpectedStore(store, ids, failingSaves), Expected(store, ids, failingSaves))
    decreases |ids|
  {
    if ids == [] {
      assert ExpectedStore(store, ids, failingSaves) == store;
    } else {
      var front, x := ids[..|ids| - 1], ids[|ids| - 1];
      assert Distinct(front);
      RunMatchesReference(store, front, failingSaves);
      assert x !in front;
      var mid := ExpectedStore(store, front, failingSaves);
      var after := ExpectedStore(store, ids, failingSaves);
      assert forall k :: k in ids <==> k in front || k == x;
      if Selected(store, x, failingSaves) {
        assert mid[x] == store[x];
        assert after == mid[x := MarkProcessed(store[x])];
      } else if x in store {
        assert mid[x] == store[x];
        assert after == mid;
      } else {
        assert after == mid;
      }
    }
  }

  /** Membership in the reference result: exactly the marked items of the
      selected listed ids. */
  lemma {:induction false} ExpectedMembers(store: Store, ids: seq<int>, failingSaves: set<int>)
    ensures forall r :: r in Expected(store, ids, failingSaves) <==>
      exists i :: 0 <= i < |ids| && Selected(store, ids[i], failingSaves) && r == MarkProcessed(store[ids[i]])
    decreases |ids|
  {
    if ids != [] {
      var front := ids[..|ids| - 1];
      ExpectedMembers(store, front, failingSaves);
      forall r ensures r in Expected(store, ids, failingSaves) <==>
        exists i :: 0 <= i < |ids| && Selected(store, ids[i], failingSaves) && r == MarkProcessed(store[ids[i]])
      {
        if r in Expected(store, ids, failingSaves) && r !in Expected(store, front, failingSaves) {
          assert Selected(store, ids[|ids| - 1], failingSaves) && r == MarkProcessed(store[ids[|ids| - 1]]);
        }
        if exists i :: 0 <= i < |ids| && Selected(store, ids[i], failingSaves) && r == MarkProcessed(store[ids[i]]) {
          var i :| 0 <= i < |ids| && Selected(store, ids[i], failingSaves) && r == MarkProcessed(store[ids[i]]);
          if i < |ids| - 1 {
            assert front[i] == ids[i];
          }
        }
      }
    }
  }

  /** Ids of the reference result come from the listing, in listing order. */
  lemma {:induction false} ExpectedIdsDistinct(store: Store, ids: seq<int>, failingSaves: set<int>)
    requires WellKeyed(store) && Distinct(ids)
    ensures forall r :: r in Expected(store, ids, failingSaves) ==> r.id in ids
    ensures forall i, j :: 0 <= i < j < |Expected(store, ids, failingSaves)| ==>
      Expected(store, ids, failingSaves)[i].id != Expected(store, ids, failingSaves)[j].id
    decreases |ids|
  {
    if ids != [] {
      var front, x := ids[..|ids| - 1], ids[|ids| - 1];
      assert Distinct(front);
      ExpectedIdsDistinct(store, front, failingSaves);
      assert forall k :: k in front ==> k in ids && k != x;
    }
  }

  /** Completeness: with a listing without repeats, the batch returns
      exactly the marked items of the selected listed ids, each once, and
      leaves the table with those items marked and everything else as it
      was. A failing id costs only its own item. */
  lemma BatchComplete(store: Store, ids: seq<int>, failingSaves: set<int>)
    requires WellKeyed(store) && Distinct(ids)
    ensures var out := ProcessAll(store, ids, failingSaves);
      && (forall r :: r in out.processed <==>
            exists id :: id in ids && Selected(store, id, failingSaves) && r == MarkProcessed(store[id]))
      && (forall i, j :: 0 <= i < j < |out.processed| ==> out.processed[i].id != out.processed[j].id)
      && out.store.Keys == store.Keys
      && (forall k :: k in store && k in ids && Selected(store, k, failingSaves) ==>
            out.store[k] == MarkProcessed(store[k]))
      && (forall k :: k in store && !(k in ids && Selected(store, k, failingSaves)) ==>
            out.store[k] == store[k])
  {
    RunMatchesReference(store, ids, failingSaves);
    ExpectedMembers(store, ids, failingSaves);
    ExpectedIdsDistinct(store, ids, failingSaves);
    var out := ProcessAll(store, ids, failingSaves);
    forall r ensures r in out.processed <==>
      exists id :: id in ids && Selected(store, id, failingSaves) && r == MarkProcessed(store[id])
    {
      if exists id :: id in ids && Selected(store, id, failingSaves) && r == MarkProcessed(store[id]) {
        var id :| id in ids && Selected(store, id, failingSaves) && r == MarkProcessed(store[id]);
        var i :| 0 <= i < |ids| && ids[i] == id;
      }
    }
  }

  /** Two listings of the same ids, each without repeats, give the same
      table and return the same items; only the order of the result differs. */
  lemma ListingOrderIrrelevant(store: Store, ids: seq<int>, other: seq<int>, failingSaves: set<int>)
    requires WellKeyed(store) && Distinct(ids) && Distinct(other)
    requires forall k :: k in ids <==> k in other
    ensures var a, b := ProcessAll(store, ids, failingSaves), ProcessAll(store, other, failingSaves);
      a.store == b.store && forall r :: r in a.processed <==> r in b.processed
  {
    BatchComplete(store, ids, failingSaves);
    BatchComplete(store, other, failingSaves);
    var a, b := ProcessAll(store, ids, failingSaves), ProcessAll(store, other, failingSaves);
    assert a.store.Keys == b.store.Keys;
    assert forall k :: k in a.store ==> a.store[k] == b.store[k];
  }

  // ---------------------------------------------------------------------
  // Several batches in sequence.

  /** A second batch over the same or fewer ids, with no change to the table
      in between, returns nothing and changes nothing. */
  lemma SecondRunEmpty(store: Store, ids: seq<int>, again: seq<int>, failingSaves: set<int>)
    requires WellKeyed(store)
    requires forall k :: k in again ==> k in ids
    ensures var first := ProcessAll(store, ids, failingSaves);
      ProcessAll(first.store, again, failingSaves) == Batch(first.store, [])
  {
    var first := ProcessAll(store, ids, failingSaves);
    RunLeavesNothingSelected(Batch(store, []), ids, failingSaves);
    RunOverUnselected(Batch(first.store, []), again, failingSaves);
  }

  /** When nothing writes the table in between, a later batch never returns
      an item with the id of an item an earlier batch returned, whatever it
      lists and whichever saves fail. */
  lemma BatchesDisjoint(store: Store, ids: seq<int>, failingSaves: set<int>,
                        later: seq<int>, laterFailing: set<int>)
    requires WellKeyed(store)
    ensures var first := ProcessAll(store, ids, failingSaves);
      var second := ProcessAll(first.store, later, laterFailing);
      forall r, q :: r in first.processed && q in second.processed ==> r.id != q.id
  {
    var first := ProcessAll(store, ids, failingSaves);
    RunAppendsProcessed(Batch(store, []), ids, failingSaves);
    RunEvolvesStore(Batch(store, []), ids, failingSaves);
    RunAppendsProcessed(Batch(first.store, []), later, laterFailing);
  }
}
