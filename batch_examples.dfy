/** Small batches worked through by hand. */
module BatchExamples {
  import opened Wrappers
  import opened Model
  import opened ItemProcessing

  /** Two pending items around an already processed one: both pending items
      are returned marked, in listing order, and the processed one is left
      alone. */
  lemma PendingAroundProcessed(a: Item, b: Item, c: Item)
    requires a.id == 1 && b.id == 2 && c.id == 3
    requires a.status == Some("PENDING") && b.status == Some(PROCESSED) && c.status == Some("PENDING")
    ensures var out := ProcessAll(map[1 := a, 2 := b, 3 := c], [1, 2, 3], {});
      && out.processed == [MarkProcessed(a), MarkProcessed(c)]
      && out.store == map[1 := MarkProcessed(a), 2 := b, 3 := MarkProcessed(c)]
  {
    var store := map[1 := a, 2 := b, 3 := c];
    var ids := [1, 2, 3];
    assert ids[..2] == [1, 2] && ids[..2][..1] == [1] && ids[..2][..1][..0] == [];
    var s1 := Run(Batch(store, []), [1], {});
    assert s1 == Batch(store[1 := MarkProcessed(a)], [MarkProcessed(a)]);
    var s2 := Run(Batch(store, []), [1, 2], {});
    assert s2 == s1;
    assert store[1 := MarkProcessed(a)][3 := MarkProcessed(c)] == map[1 := MarkProcessed(a), 2 := b, 3 := MarkProcessed(c)];
  }

  /** A null status and a failing save cost only their own items: the task
      after them still runs. */
  lemma FailuresDoNotStopLaterIds(a: Item, b: Item, c: Item)
    requires a.id == 1 && b.id == 2 && c.id == 3
    requires a.status == None && b.status == Some("PENDING") && c.status == Some("PENDING")
    ensures var out := ProcessAll(map[1 := a, 2 := b, 3 := c], [1, 2, 3], {2});
      && out.processed == [MarkProcessed(c)]
      && out.store == map[1 := a, 2 := b, 3 := MarkProcessed(c)]
  {
    var store := map[1 := a, 2 := b, 3 := c];
    var ids := [1, 2, 3];
    assert ids[..2] == [1, 2] && ids[..2][..1] == [1] && ids[..2][..1][..0] == [];
    assert Run(Batch(store, []), [1], {2}) == Batch(store, []);
    assert Run(Batch(store, []), [1, 2], {2}) == Batch(store, []);
  }
}
