// Value types shared by the repository and the controller: the Item record,
// its DTOs, and the small wrappers used for absent values and thrown exceptions.

module Wrappers {

  /** A C# reference that may be null: `None` stands for null. */
  datatype Option<+T> = None | Some(value: T)

  /** The outcome of a call that either returns a value or throws. */
  datatype Result<+T, +E> = Success(value: T) | Failure(error: E)
}

module Models {
  import opened Wrappers

  /** System.Guid: a 128-bit value of which only equality is ever used. */
  newtype Guid = x: int | 0 <= x < 0x1_0000_0000_0000_0000_0000_0000_0000_0000

  /** DateTimeOffset in UTC, as a tick count. */
  type Instant = int

  /** The exceptions the in-memory store can throw and no caller handles. */
  datatype Fault =
    | MoreThanOneMatch   // SingleOrDefault saw a second matching element

  /** The Item record. A property the initializer never sets is null, hence the
      optional description. */
  datatype Item = Item(
    id: Guid,
    name: string,
    description: Option<string>,
    price: int,
    createdDate: Instant)

  /** The representation returned to clients. */
  datatype ItemDto = ItemDto(
    id: Guid,
    name: string,
    description: Option<string>,
    price: int,
    createdDate: Instant)

  /** Request bodies of POST and PUT. */
  datatype CreateItemDto = CreateItemDto(name: string, description: string, price: int)
  datatype UpdateItemDto = UpdateItemDto(name: string, description: string, price: int)

  /** The extension method AsDto: a field-by-field copy of the record. */
  function AsDto(item: Item): (dto: ItemDto)
    ensures dto.id == item.id && dto.name == item.name && dto.description == item.description
    ensures dto.price == item.price && dto.createdDate == item.createdDate
  {
    ItemDto(item.id, item.name, item.description, item.price, item.createdDate)
  }
}
