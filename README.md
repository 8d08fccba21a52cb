# Catalog items: in-memory repository and controller

A Dafny model of the catalog service's item store and of the controller that
serves `/items` on top of it.

- **`InMemoryItemsRepository`** keeps a `List<Item>` in insertion order and
  searches it linearly by `Id`. It starts with three seed items. `GetItem` is
  `Where(id match).SingleOrDefault()`: it returns the match or null, and it
  throws when two items share the id. `CreateItem` appends without checking
  for a duplicate id. `UpdateItem` and `RemoveItem` locate the slot with
  `FindIndex`. For an absent id that index is -1, and the indexer or
  `RemoveAt` throws.
- **`ItemsController`** turns each request into repository calls and an action
  result: 404, 200 with a DTO, 201 with the new id and its DTO, or 204.
  Update and remove look the id up before writing. That lookup is what
  guarantees the repository's `FindIndex` never returns -1.

The repository has a synchronous copy at the root and an asynchronous copy
under `Catalog.Api/`. They differ only in `Task` wrapping, so one model covers
both:

| model | synchronous copy | asynchronous copy |
|---|---|---|
| `InMemoryItemsRepository` | Repository/InMemoryItemsRepository.cs | Catalog.Api/Repository/InMemoryItemsRepository.cs |
| `ItemsController` | Controllers/ItemsController.cs | Catalog.Api/Controllers/ItemsController.cs |

Files:

- `models.dfy`: the `Item` record, its DTOs and `AsDto`. It also holds
  `Option` (a nullable reference) and `Result` (a value or a thrown exception).
- `item_queries.dfy`: what `List.FindIndex`, `Where` and `SingleOrDefault`
  compute over the stored sequence, with lemmas about what a lookup means.
- `in_memory_items_repository.dfy`: the repository class. Its list is a
  `seq<Item>` field that `CreateItem`, `UpdateItem` and `RemoveItem` reassign.
  `GetItem` and `FindIndex` are loops. Beside the class are lemmas about
  id distinctness and about a read that follows a write.
- `items_controller.dfy`: the controller class, the two record constructions,
  the check-then-act lemmas for update and remove, and `Lifecycle`, a verified
  scenario of create, read, update, read, delete and read on a freshly seeded
  store.

Inputs the code takes from its environment are parameters:

- `Guid.NewGuid()` is a fresh id.
- `DateTimeOffset.UtcNow` is an `Instant` (a tick count).

A `Guid` is a 128-bit value, and only equality is used on it. `Price` is an
integer. A `Description` the code never sets is null, written `None`.

The code departs from what its request types and unit tests suggest, and the model follows the code:

- Update keeps the stored description. The request's description is ignored.
- Create does not copy the request's description.
- Nothing checks that ids are distinct. `DistinctIds` is a property the
  callers must keep, not an invariant of the store.

## Model

| member | source | states |
|---|---|---|
| `Repository.InMemoryItemsRepository.constructor` | Repository/InMemoryItemsRepository.cs:10-33 | A fresh store holds exactly "Potion"/9, "Iron Swod"/20 and "Bronze Shield"/18, in that order, with null descriptions and the given ids and dates. The ids are distinct when the three fresh ids differ. |
| `Repository.InMemoryItemsRepository.GetItems` | Repository/InMemoryItemsRepository.cs:35-38 | Returns the stored sequence itself, in insertion order, and changes nothing. |
| `Repository.InMemoryItemsRepository.GetItem` | Repository/InMemoryItemsRepository.cs:40-43 | The loop, which stops at the second match as SingleOrDefault does, returns exactly `SingleOrDefault(Where(items, id))`. It is read-only. |
| `Repository.InMemoryItemsRepository.FindIndex` | Repository/InMemoryItemsRepository.cs:52 | The linear search returns `FirstIndexOf(items, id)`: the first slot holding the id, or -1 when none does. |
| `Repository.InMemoryItemsRepository.CreateItem` | Repository/InMemoryItemsRepository.cs:45-48 | The new store is the old one with the item appended. There is no duplicate check, and every earlier slot is unchanged. |
| `Repository.InMemoryItemsRepository.UpdateItem` | Repository/InMemoryItemsRepository.cs:50-54 | Requires the id to be present. Only the first slot with the id is overwritten, and the length and every other slot stay the same. |
| `Repository.InMemoryItemsRepository.RemoveItem` | Repository/InMemoryItemsRepository.cs:56-60 | Requires the id to be present. Only the first slot with the id is removed, and the other items keep their relative order. |
| `Models.AsDto` | Controllers/ItemsController.cs:28 | A field-by-field copy of the record into its DTO: id, name, description, price and creation date carry over unchanged. It stands in for the `AsDto` extension method, which is not part of this model. |
| `ItemQueries.Where` | Repository/InMemoryItemsRepository.cs:42 | `Where(item => item.Id == id)`, built front to back so the kept items stay in list order. Every kept item has the id, and the result is never longer than the list. |
| `ItemQueries.WhereIsFilter` | Catalog.Api/Repository/InMemoryItemsRepository.cs:45 | An item is kept by `Where` exactly when it is stored and has the id (both directions). |
| `ItemQueries.SingleOrDefault` | Repository/InMemoryItemsRepository.cs:42 | No element gives null, exactly one element gives that element, and two or more give the `MoreThanOneMatch` exception. |
| `ItemQueries.Lookup` | Catalog.Api/Repository/InMemoryItemsRepository.cs:43-47 | The composition `Where(...).SingleOrDefault()`. An item it yields is stored and has the requested id. |
| `ItemQueries.FirstIndexOf` | Catalog.Api/Repository/InMemoryItemsRepository.cs:59 | Returns -1 exactly when no slot holds the id. Otherwise it returns a slot holding the id, and no earlier slot holds it. |
| `ItemQueries.WhereFacts` | Catalog.Api/Repository/InMemoryItemsRepository.cs:45 | `Where` keeps nothing exactly when the id is absent, and two or more items exactly when the id is duplicated. Its first element is the item at `FirstIndexOf`. |
| `ItemQueries.LookupMeaning` | Catalog.Api/Repository/InMemoryItemsRepository.cs:43-47 | The lookup is null exactly when no item has the id. It throws exactly when two items share the id. Otherwise it yields the item at the id's slot. |
| `ItemQueries.LookupFoundIsUnique` | Catalog.Api/Repository/InMemoryItemsRepository.cs:45 | A found item has the requested id and is stored. It is the only slot with that id, and that slot is the one FindIndex reports. |
| `ItemQueries.DistinctLookupNeverFails` | Catalog.Api/Repository/InMemoryItemsRepository.cs:43-47 | When ids are distinct, the lookup never throws. |
| `Repository.CreateKeepsDistinctIds` | Catalog.Api/Repository/InMemoryItemsRepository.cs:49-55 | For a store with distinct ids, appending keeps them distinct exactly when the new id is absent (both directions). |
| `Repository.UpdateKeepsDistinctIds` | Catalog.Api/Repository/InMemoryItemsRepository.cs:57-64 | Overwriting the first slot that has the item's id keeps ids distinct. |
| `Repository.RemoveKeepsDistinctIds` | Catalog.Api/Repository/InMemoryItemsRepository.cs:66-73 | Removing the first slot with the id keeps ids distinct. |
| `Repository.CreateThenLookup` | Catalog.Api/Repository/InMemoryItemsRepository.cs:49-55 | After appending an item whose id was absent, a lookup of that id yields that item. |
| `Repository.UpdateThenLookup` | Catalog.Api/Repository/InMemoryItemsRepository.cs:57-64 | After overwriting the only slot with an id, a lookup of that id yields the new item. |
| `Repository.RemoveThenLookup` | Repository/InMemoryItemsRepository.cs:56-60 | After removing an id that occurred exactly once, a lookup of that id is null. |
| `Controllers.NewItem` | Controllers/ItemsController.cs:50-56 | The created record has the fresh id, the clock value, and the request's name and price. Its description is null. |
| `Controllers.WithNameAndPrice` | Catalog.Api/Controllers/ItemsController.cs:78-83 | The rebuilt record keeps the stored id, creation date and description. Only name and price come from the request. |
| `Controllers.ItemsController.constructor` | Controllers/ItemsController.cs:17-20 | The controller holds the injected repository. |
| `Controllers.ItemsController.GetItems` | Controllers/ItemsController.cs:22-31 | Returns one DTO per stored item, with the same count and order. Nothing changes. |
| `Controllers.ItemsController.GetItem` | Controllers/ItemsController.cs:33-44 | Returns NotFound exactly when no item has the id. It propagates the lookup's exception exactly when the id is duplicated. Otherwise it returns Ok with that item's DTO. |
| `Controllers.ItemsController.CreateItem` | Controllers/ItemsController.cs:46-62 | Appends exactly one item built from the request, the fresh id and the clock. Returns Created with the same id and that item's DTO. Keeps ids distinct when the fresh id was absent. |
| `Controllers.ItemsController.UpdateItem` | Controllers/ItemsController.cs:64-86 | An absent id gives NotFound with no write, and a duplicated id propagates the exception with no write. Otherwise the id's slot is rebuilt with the new name and price, everything else is unchanged, and the result is NoContent. Ids stay distinct. |
| `Controllers.ItemsController.RemoveItem` | Controllers/ItemsController.cs:88-102 | An absent id gives NotFound with no write, and a duplicated id propagates the exception with no write. Otherwise the id's slot is removed, the rest keep their order, and the result is NoContent. Ids stay distinct. |
| `Controllers.LookupDischargesFindIndex` | Catalog.Api/Controllers/ItemsController.cs:71-85 | When the controller's lookup finds an item, the rebuilt record's id is present, which is the update's precondition. FindIndex on that id gives the slot the lookup read, never -1. |
| `Controllers.LookupDischargesRemoveAt` | Catalog.Api/Controllers/ItemsController.cs:95-102 | When the controller's lookup finds an item, the id is present, which is the remove's precondition. The slot FindIndex gives is the one the lookup read, so `RemoveAt` is never handed -1. |
| `Controllers.Lifecycle` | Catalog.Api/Controllers/ItemsController.cs:47-105 | A verified scenario: on a freshly seeded store, a fresh item is created (201), read back (200), updated (204, then read back with the new name and price and the same id, date and null description), removed (204), and then not found (404). |

## Left out

- `Repository.InMemoryItemsRepository.UpdateItem`: the `ArgumentOutOfRangeException` thrown for an absent id is modelled as a precondition, not as an error value. No code handles that exception, and the controller always checks first.
- `Repository.InMemoryItemsRepository.RemoveItem`: the same modelling choice, for the exception `RemoveAt(-1)` throws.
- The `IItemsRepository` interface: the controller is bound directly to the in-memory repository class. The interface only declares signatures.
- The MongoDB repository: its behaviour lives in a driver library that is not part of this model.
- The MongoDB connection settings and both `Startup` classes: these are wiring, Swagger, health checks and serializer setup.
- `Task` wrapping and `await`: every asynchronous action is a synchronous method.
- Concurrency: the model has a single caller. The race between the controller's lookup and its later write is not modelled.
- Aliasing: `GetItems` returns the live `List` object, and the model returns its current contents instead.
- HTTP details: routing attributes, `ActionResult` types and the `Location` header are left out. A plain outcome datatype takes their place.
- The uniqueness of `Guid.NewGuid()`: where a property needs a fresh id, it is a hypothesis that the id is absent.
- The time tolerance the unit tests check (created within one second of now): there is no clock in the model.
- The Moq-based unit tests: they build the controller with a logger, and they expect the description to be copied on create. The controller's code does neither.
