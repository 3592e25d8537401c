# Item service: batch processing and the e-mail constraint

This project models two parts of a small Spring record-management service.

1. **The item service** (`ItemService`). It has CRUD calls that delegate to the
   item repository. It also has `processItemsAsync`, which:
   - lists every item id;
   - runs one task per id on a thread pool;
   - returns the shared list of processed items once every task has finished.

   A task fetches its item by id. It skips a missing item and an item whose
   status is already `"PROCESSED"`. Otherwise it sets the status to
   `"PROCESSED"`, saves the item, appends it to the shared list and bumps the
   shared counter. Any exception in a task is caught and the item is skipped.
2. **The e-mail constraint** (`EmailValidator.isValid`). A null string is
   rejected. Any other string must match `^[A-Za-z0-9+_.-]+@[A-Za-z0-9.-]+$`
   as a whole.

## Layout

| file | module | contents |
|---|---|---|
| `wrappers.dfy` | `Wrappers` | `Option`, which stands for a Java reference that may be null |
| `item.dfy` | `Model` | the `Item` entity, the repository table `Store`, `MarkProcessed` |
| `batch.dfy` | `ItemProcessing` | one task (`Attempt`, `Step`), a batch (`Run`, `ProcessAll`), a per-id reference (`Expected`, `ExpectedStore`), and the lemmas about them |
| `batch_examples.dfy` | `BatchExamples` | small batches worked through by hand |
| `item_service.dfy` | `Service` | the class `ItemService`: the repository table, `processedItems`, `processedCount`, the CRUD calls and the batch as a loop |
| `email_validator.dfy` | `EmailValidation` | the two character classes, an automaton for the pattern, the reference reading `IsAddress`, and the lemmas about them |
| `email_examples.dfy` | `EmailExamples` | concrete addresses, accepted and rejected |

## How the model works

- **The repository** is the field `ItemService.store`, a map from id to item.
  `WellKeyed` says that each item is stored under its own id, as the
  repository's primary key guarantees.
- **The id listing** (`findAllIds`) is the parameter `itemIds`. The repository
  chooses its order. A listed id whose item is gone models an item deleted
  between the listing and the fetch.
- **Save failures** are the parameter `failingSaves`: the ids whose `save`
  throws. A failing save leaves the table as it was.
- **Null status.** A null status makes `item.getStatus().equals(...)` throw.
  The exception is caught, so such an item is never processed. `Attempt`
  gives both kinds of caught exception the outcome `Failed`.
- **Failures are only printed.** The catch block of a task prints a message
  (`ItemService.java:90`) and nothing reaches the caller. So the model's result
  holds only the processed items; `Failed` is an internal outcome and is not
  returned.
- **One shared list per service.** Each call clears and reuses the
  `processedItems` field and the counter (`ItemService.java:65-66`) instead of
  allocating a new list. The model does the same.
- **The status is a string.** `Item.status` is a `String` that may be null, not
  an enumeration; a null status is never processed (see above).
- **The thread pool.** Each task reads and writes only its own id. So running
  the tasks one after another in listing order is one legal schedule, and it
  is the schedule the model follows. `ProcessItemsAsync` is that loop, proved
  equal to `ProcessAll`. `RunMatchesReference` shows that, for a listing
  without repeats, no task depends on an earlier one: each id's item is read
  from the table as it was before the batch. `ListingOrderIrrelevant` shows
  that any reordering of such a listing gives the same table and returns the
  same items; only the order of the returned list follows the listing.
- **The pattern.** It is compiled by hand into a five-state automaton (`Scan`).
  `MatchesIffAddress` proves that the automaton accepts exactly the strings
  that split at an `@` into a non-empty run of `[A-Za-z0-9+_.-]` and a
  non-empty run of `[A-Za-z0-9.-]`.

## Model

| member | source | states |
|---|---|---|
| `Model.MarkProcessed` | src/main/java/com/siemens/internship/service/ItemService.java:81 | the marked item has status `PROCESSED` and is no longer pending; its id, name, description and email are unchanged |
| `ItemProcessing.AttemptProcessesSelected` | src/main/java/com/siemens/internship/service/ItemService.java:73-91 | a task succeeds iff the id is in the table, its status is non-null and not `PROCESSED`, and its save does not fail; on success the item is the table's item with only the status changed; a missing id is `Missing`, a `PROCESSED` item is `AlreadyProcessed`, and a null status or a failing save is `Failed` |
| `ItemProcessing.SkippedStepChangesNothing` | src/main/java/com/siemens/internship/service/ItemService.java:74-79 | a missing id, an already processed item, or a caught exception leaves both the table and the result list unchanged |
| `ItemProcessing.RunEvolvesStore` | src/main/java/com/siemens/internship/service/ItemService.java:71-95 | after any run the table has the same keys and stays well-keyed; each entry is either unchanged or, for a listed id that was selected, its marked self; ids not listed are untouched |
| `ItemProcessing.RunLeavesNothingSelected` | src/main/java/com/siemens/internship/service/ItemService.java:71-92 | after a run, no listed id would be processed again: each one was processed, or is missing, already processed, null-status, or failing |
| `ItemProcessing.RunOverUnselected` | src/main/java/com/siemens/internship/service/ItemService.java:77-79 | a run over ids none of which is selected changes neither the table nor the list |
| `ItemProcessing.RunAppendsProcessed` | src/main/java/com/siemens/internship/service/ItemService.java:81-87 | a run keeps the list's earlier items; each appended item comes from a listed id that was selected in the table before the run, is that entry's marked form, and is what the table holds under its id afterwards |
| `ItemProcessing.ResultAllProcessed` | src/main/java/com/siemens/internship/service/ItemService.java:81-86 | every item a batch returns has status `PROCESSED` |
| `ItemProcessing.ResultKeepsOtherFields` | src/main/java/com/siemens/internship/service/ItemService.java:81-83 | every returned item matches the table's original item under its id in id, name, description and email |
| `ItemProcessing.UnselectedNotReturned` | src/main/java/com/siemens/internship/service/ItemService.java:73-91 | no item is returned for an id that is missing, already processed, has a null status, or has a failing save |
| `ItemProcessing.RunMatchesReference` | src/main/java/com/siemens/internship/service/ItemService.java:69-95 | for a listing without repeats, the sequential batch equals the per-id reference, which reads every item from the table as it was before the batch: the marked items of the selected ids in listing order (the modelled schedule), and the table with exactly those entries marked |
| `ItemProcessing.ListingOrderIrrelevant` | src/main/java/com/siemens/internship/service/ItemService.java:69-95 | two listings of the same ids, each without repeats, leave the same table and return the same items; only the order of the returned list differs |
| `ItemProcessing.BatchComplete` | src/main/java/com/siemens/internship/service/ItemService.java:69-98 | for a listing without repeats, the result holds exactly the marked items of the listed ids that were present, pending and not failing, each id once; afterwards the table holds those marked, keeps its keys, and holds every other entry unchanged; a failing id costs only its own item |
| `ItemProcessing.SecondRunEmpty` | src/main/java/com/siemens/internship/service/ItemService.java:65-79 | a second batch over the same or fewer ids, with the same failing saves and no table change in between, returns an empty list and changes nothing |
| `ItemProcessing.BatchesDisjoint` | src/main/java/com/siemens/internship/service/ItemService.java:65-87 | when nothing writes the table in between, a later batch never returns an item whose id an earlier batch returned, whatever it lists and whichever saves fail (an update through the controller can write a status back, and the item is then returned again) |
| `BatchExamples.PendingAroundProcessed` | src/main/java/com/siemens/internship/service/ItemService.java:74-87 | for items 1, 2 and 3 with statuses pending, `PROCESSED` and pending, the batch returns items 1 and 3 marked, in listing order (the modelled schedule), and leaves item 2 untouched |
| `BatchExamples.FailuresDoNotStopLaterIds` | src/main/java/com/siemens/internship/service/ItemService.java:73-91 | for a null-status item 1 and a failing save for item 2, the batch still processes item 3, and only item 3 |
| `Service.ItemService.constructor` | src/main/java/com/siemens/internship/service/ItemService.java:18-23 | the service wraps a well-keyed repository table, with an empty shared list and a zero counter |
| `Service.ItemService.FindAll` | src/main/java/com/siemens/internship/service/ItemService.java:26-28 | the returned items are exactly the table's items, each stored under its own id |
| `Service.ItemService.FindById` | src/main/java/com/siemens/internship/service/ItemService.java:30-32 | an item is found iff its id is in the table; the found item is the table's entry and carries that id |
| `Service.ItemService.Save` | src/main/java/com/siemens/internship/service/ItemService.java:34-36 | an upsert under the item's id that returns the item; the shared list and counter are unchanged |
| `Service.ItemService.DeleteById` | src/main/java/com/siemens/internship/service/ItemService.java:38-40 | removes the entry under the id, if there is one; nothing else changes |
| `Service.ItemService.ProcessOne` | src/main/java/com/siemens/internship/service/ItemService.java:72-92 | one task changes the table and the shared list exactly as `Step` says, and keeps the counter equal to the list's length |
| `Service.ItemService.ProcessItemsAsync` | src/main/java/com/siemens/internship/service/ItemService.java:62-98 | clears the shared list and counter, then runs every listed task; the new table and list equal `ProcessAll` of the old table, so all the `ItemProcessing` lemmas apply to them; returns the shared list with the counter equal to its length |
| `Service.ProcessTwice` | src/main/java/com/siemens/internship/service/ItemService.java:62-98 | two batches in a row over the same listing: the first returns only `PROCESSED` items, the second returns nothing and resets the counter to zero |
| `EmailValidation.IsValid` | src/main/java/com/siemens/internship/validation/EmailValidator.java:16-21 | null is rejected; any other string is accepted iff it splits at an `@` into a non-empty run of `[A-Za-z0-9+_.-]` and a non-empty run of `[A-Za-z0-9.-]`, with nothing before or after |
| `EmailValidation.MatchesIffAddress` | src/main/java/com/siemens/internship/validation/EmailValidator.java:10 | the automaton built from the pattern accepts a string iff the string has that split (both directions) |
| `EmailValidation.ComposeAccepted` | src/main/java/com/siemens/internship/validation/EmailValidator.java:10 | `L + "@" + D` is accepted iff L is a non-empty run of the local class and D a non-empty run of the domain class |
| `EmailValidation.AcceptedSplits` | src/main/java/com/siemens/internship/validation/EmailValidator.java:10 | every accepted string is `L + "@" + D` for such L and D |
| `EmailValidation.AcceptedHasOneAt` | src/main/java/com/siemens/internship/validation/EmailValidator.java:10 | an accepted string holds exactly one `@` |
| `EmailValidation.AcceptedAlphabet` | src/main/java/com/siemens/internship/validation/EmailValidator.java:10 | an accepted string uses only ASCII letters, digits, `+ _ . -` and `@`, so it has no space, tab or line break |
| `EmailValidation.RejectsEmptyAndEdgeAt` | src/main/java/com/siemens/internship/validation/EmailValidator.java:10 | the empty string, and strings that start or end with `@`, are rejected |
| `EmailValidation.PlusUnderscoreOnlyBeforeAt` | src/main/java/com/siemens/internship/validation/EmailValidator.java:10 | in an accepted string, no `+` or `_` comes after the `@` |
| `EmailExamples.LooseAddressesAccepted` | src/main/java/com/siemens/internship/validation/EmailValidator.java:10 | the domain gets no structural check: `a@b`, `a@.example`, `a@example..com` and `.a.@-` pass, and so does `first+tag_x@example.com` |
| `EmailExamples.RejectedAddresses` | src/main/java/com/siemens/internship/validation/EmailValidator.java:10 | `+` or `_` after the `@`, a second `@`, or a space makes a string fail |
| `EmailExamples.ControllerTestAddresses` | src/test/java/com/siemens/internship/ItemControllerTests.java:42-43 | the addresses the controller tests use pass: `item1@example.com`, `item2@example.com`, and `valid@example.com` from line 82 |

## Left out

- The thread pool, `CompletableFuture.runAsync`/`allOf` and `@Async` are not modelled: the model runs one sequential schedule of the tasks. Running overlapping calls, and the race on the shared `processedItems` field between them, are not modelled.
- Service.ItemService.ProcessItemsAsync: returns the list as a value. In the source, the returned list is the shared field itself, so a later call clears the list an earlier caller still holds. That aliasing is not captured.
- Service.ItemService.ProcessItemsAsync: the counter is an unbounded integer. The source's `AtomicInteger` would wrap after 2^31 - 1 increments.
- The console message printed in the catch block is console output; only its effect (the item is skipped) is modelled.
- Only `save` failures are modelled, as the set `failingSaves`. A failing `findById` in a task, or a failing id listing, is not modelled.
- Ids are unbounded integers, not 64-bit `Long`s. A null id, and the repository generating an id when a new item is saved, are not modelled: `Save` files the item under the id it carries.
- `findAll` returns a set: the order of the repository's list is not modelled.
- The repository implementation (Spring Data JPA) is not part of this model. It is replaced by a map.
- The HTTP controller, Spring validation binding and the JPA/Lombok annotations on `Item` are not modelled; they have no logic of their own.
- The Java regex engine is not modelled. The pattern is encoded by its two character classes and a hand-built automaton. Java `char`s are UTF-16 code units, while Dafny `char`s are Unicode scalar values; both classes are ASCII, so this makes no difference to acceptance.
