// ItemsController: turns each request into calls on the in-memory repository
// and an action result. Update and remove look the id up first, and that
// lookup is what establishes the repository's "id is present" precondition.
// Guid.NewGuid() and DateTimeOffset.UtcNow in CreateItem are parameters.

module Controllers {
  import opened Wrappers
  import opened Models
  import opened ItemQueries
  import opened Repository

  /** The HTTP outcomes: 404, 200 with a body, 201 pointing at GetItem for the
      new id, 204, and an exception that escapes the action (a server error). */
  datatype ActionResult =
    | NotFound
    | Ok(dto: ItemDto)
    | CreatedAtAction(id: Guid, dto: ItemDto)
    | NoContent
    | Unhandled(fault: Fault)

  /** `new Item { Id, Name, Price, CreatedDate }` from a creation request:
      the description is not copied, so it stays null. */
  function NewItem(itemDto: CreateItemDto, id: Guid, now: Instant): (item: Item)
    ensures item.id == id && item.createdDate == now
    ensures item.name == itemDto.name && item.price == itemDto.price
    ensures item.description == None
  {
    Item(id, itemDto.name, None, itemDto.price, now)
  }

  /** `oldItem with { Name, Price }`: the stored id, creation date and
      description survive; only name and price come from the request. */
  function WithNameAndPrice(oldItem: Item, itemDto: UpdateItemDto): (item: Item)
    ensures item.id == oldItem.id && item.createdDate == oldItem.createdDate
    ensures item.description == oldItem.description
    ensures item.name == itemDto.name && item.price == itemDto.price
  {
    oldItem.(name := itemDto.name, price := itemDto.price)
  }

  class ItemsController {
    const repository: InMemoryItemsRepository

    constructor (repository: InMemoryItemsRepository)
      ensures this.repository == repository
    {
      this.repository := repository;
    }

    /** GET /items: one DTO per stored item, same count and order; read-only. */
    method GetItems() returns (dtos: seq<ItemDto>)
      ensures |dtos| == |repository.items|
      ensures forall k :: 0 <= k < |dtos| ==> dtos[k] == AsDto(repository.items[k])
    {
      var items := repository.GetItems();
      dtos := seq(|items|, k requires 0 <= k < |items| => AsDto(items[k]));
    }

    /** GET /items/{id}: 404 exactly when no item has the id, otherwise 200 with
        the DTO of the one item that has it; a duplicated id makes the
        repository throw. */
    method GetItem(id: Guid) returns (r: ActionResult)
      ensures r == NotFound <==> !HasId(repository.items, id)
      ensures r == Unhandled(MoreThanOneMatch) <==> Duplicated(repository.items, id)
      ensures HasId(repository.items, id) && !Duplicated(repository.items, id) ==>
                r == Ok(AsDto(repository.items[FirstIndexOf(repository.items, id)]))
    {
      var item := repository.GetItem(id);
      LookupMeaning(repository.items, id);
      match item
      case Failure(e) => r := Unhandled(e);
      case Success(None) => r := NotFound;
      case Success(Some(x)) => r := Ok(AsDto(x));
    }

    /** POST /items: appends exactly one new item built from the request, the
        fresh id and the clock, and answers 201 with that id and its DTO. */
    method CreateItem(itemDto: CreateItemDto, freshId: Guid, now: Instant) returns (r: ActionResult)
      modifies repository
      ensures repository.items == old(repository.items) + [NewItem(itemDto, freshId, now)]
      ensures r == CreatedAtAction(freshId, AsDto(NewItem(itemDto, freshId, now)))
      ensures DistinctIds(old(repository.items)) && !HasId(old(repository.items), freshId) ==>
                DistinctIds(repository.items)
    {
      var item := NewItem(itemDto, freshId, now);
      if DistinctIds(repository.items) {
        CreateKeepsDistinctIds(repository.items, item);
      }
      repository.CreateItem(item);
      r := CreatedAtAction(item.id, AsDto(item));
    }

    /** PUT /items/{id}: 404 and no write when the id is absent; otherwise the
        item's slot is overwritten with its name and price taken from the
        request, everything else in the store unchanged, and 204. */
    method UpdateItem(id: Guid, itemDto: UpdateItemDto) returns (r: ActionResult)
      modifies repository
      ensures !HasId(old(repository.items), id) ==>
                r == NotFound && repository.items == old(repository.items)
      ensures Duplicated(old(repository.items), id) ==>
                r == Unhandled(MoreThanOneMatch) && repository.items == old(repository.items)
      ensures HasId(old(repository.items), id) && !Duplicated(old(repository.items), id) ==>
                var i := FirstIndexOf(old(repository.items), id);
                r == NoContent &&
                repository.items == old(repository.items)[i := WithNameAndPrice(old(repository.items)[i], itemDto)]
      ensures DistinctIds(old(repository.items)) ==> DistinctIds(repository.items)
    {
      var oldItem := repository.GetItem(id);
      LookupMeaning(repository.items, id);
      match oldItem
      case Failure(e) =>
        r := Unhandled(e);
      case Success(None) =>
        r := NotFound;
      case Success(Some(x)) =>
        LookupDischargesFindIndex(repository.items, id, x, itemDto);
        var item := WithNameAndPrice(x, itemDto);
        if DistinctIds(repository.items) {
          UpdateKeepsDistinctIds(repository.items, item);
        }
        repository.UpdateItem(item);
        r := NoContent;
    }

    /** DELETE /items/{id}: 404 and no write when the id is absent; otherwise
        the item's slot is removed, the others keep their order, and 204. */
    method RemoveItem(id: Guid) returns (r: ActionResult)
      modifies repository
      ensures !HasId(old(repository.items), id) ==>
                r == NotFound && repository.items == old(repository.items)
      ensures Duplicated(old(repository.items), id) ==>
                r == Unhandled(MoreThanOneMatch) && repository.items == old(repository.items)
      ensures HasId(old(repository.items), id) && !Duplicated(old(repository.items), id) ==>
                var i := FirstIndexOf(old(repository.items), id);
                r == NoContent &&
                repository.items == old(repository.items)[..i] + old(repository.items)[i + 1..]
      ensures DistinctIds(old(repository.items)) ==> DistinctIds(repository.items)
    {
      var item := repository.GetItem(id);
      LookupMeaning(repository.items, id);
      match item
      case Failure(e) =>
        r := Unhandled(e);
      case Success(None) =>
        r := NotFound;
      case Success(Some(x)) =>
        LookupDischargesRemoveAt(repository.items, id, x);
        if DistinctIds(repository.items) {
          RemoveKeepsDistinctIds(repository.items, id);
        }
        repository.RemoveItem(id);
        r := NoContent;
    }
  }

  /** The check-then-act composition for PUT: whenever the controller's lookup
      finds an item, the rebuilt record's id is present, so FindIndex does not
      give -1 and the indexer does not throw; it locates the very slot the
      lookup read. */
  lemma LookupDischargesFindIndex(s: seq<Item>, id: Guid, x: Item, itemDto: UpdateItemDto)
    requires Lookup(s, id) == Success(Some(x))
    ensures HasId(s, WithNameAndPrice(x, itemDto).id)
    ensures FirstIndexOf(s, WithNameAndPrice(x, itemDto).id) == FirstIndexOf(s, id)
    ensures s[FirstIndexOf(s, id)] == x
  {
    LookupFoundIsUnique(s, id, x);
  }

  /** The check-then-act composition for DELETE: whenever the controller's
      lookup finds an item, the id is present, so RemoveAt is not handed -1;
      the slot removed is the one the lookup read. */
  lemma LookupDischargesRemoveAt(s: seq<Item>, id: Guid, x: Item)
    requires Lookup(s, id) == Success(Some(x))
    ensures HasId(s, id)
    ensures s[FirstIndexOf(s, id)] == x
  {
    LookupFoundIsUnique(s, id, x);
  }

  /** A request sequence against a freshly seeded store: create a potion, read
      it back, rename and reprice it, read it again, delete it, and read it
      once more. */
  method Lifecycle(potionId: Guid, swordId: Guid, shieldId: Guid, seedDate: Instant,
                   freshId: Guid, now: Instant)
    returns (created: ActionResult, found: ActionResult, updated: ActionResult,
             refound: ActionResult, removed: ActionResult, gone: ActionResult)
    requires potionId != swordId && swordId != shieldId && potionId != shieldId
    requires freshId != potionId && freshId != swordId && freshId != shieldId
    ensures created == CreatedAtAction(freshId, ItemDto(freshId, "Potion", None, 9, now))
    ensures found == Ok(ItemDto(freshId, "Potion", None, 9, now))
    ensures updated == NoContent
    ensures refound == Ok(ItemDto(freshId, "Elixir", None, 15, now))
    ensures removed == NoContent
    ensures gone == NotFound
  {
    var repository := new InMemoryItemsRepository(potionId, swordId, shieldId, seedDate, seedDate, seedDate);
    var controller := new ItemsController(repository);
    var seed := repository.items;
    assert !HasId(seed, freshId);

    created := controller.CreateItem(CreateItemDto("Potion", "", 9), freshId, now);
    var afterCreate := repository.items;
    var stored := NewItem(CreateItemDto("Potion", "", 9), freshId, now);
    CreateThenLookup(seed, stored);
    LookupMeaning(afterCreate, freshId);
    found := controller.GetItem(freshId);

    updated := controller.UpdateItem(freshId, UpdateItemDto("Elixir", "stronger", 15));
    var afterUpdate := repository.items;
    var renamed := WithNameAndPrice(stored, UpdateItemDto("Elixir", "stronger", 15));
    UpdateThenLookup(afterCreate, renamed);
    LookupMeaning(afterUpdate, freshId);
    refound := controller.GetItem(freshId);

    removed := controller.RemoveItem(freshId);
    RemoveThenLookup(afterUpdate, freshId);
    LookupMeaning(repository.items, freshId);
    gone := controller.GetItem(freshId);
  }
}
