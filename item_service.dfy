/** The item services (`services/item_service.py`): the repository's operations behind existence checks
    that turn a missing item into a 404. */
module ItemService {
  import opened Wrappers
  import opened Http
  import opened ItemRepository

  const ITEM_NOT_FOUND := "Item not found"
  const ITEM_CREATED := "Item created successfully"
  const ITEM_UPDATED := "Item updated successfully"
  const ITEM_DELETED := "Item deleted successfully"

  /** A success message together with the item it concerns. */
  datatype ItemResponse = ItemResponse(detail: string, item: Item)

  /** `get_item_by_id_service`: the item with that id, or 404 "Item not found". */
  function GetItemById(rows: seq<Item>, id: int): (r: Result<Item, Error>)
    ensures r.Ok? <==> exists it :: it in rows && it.id == id
    ensures r.Ok? ==> r.value in rows && r.value.id == id
    ensures r.Err? ==> r.error == NotFound(ITEM_NOT_FOUND)
  {
    match GetById(rows, id)
    case None => Err(NotFound(ITEM_NOT_FOUND))
    case Some(it) => Ok(it)
  }

  /** With unique ids, the item a lookup returns is the only one with that id. */
  lemma GetItemByIdIsTheItem(rows: seq<Item>, it: Item)
    requires UniqueIds(rows) && it in rows
    ensures GetItemById(rows, it.id) == Ok(it)
  {
    GetByIdFindsRow(rows, it);
  }

  /** `get_all_items_service`: the repository's whole listing. */
  function GetAllItems(rows: seq<Item>): (r: seq<Item>)
    ensures forall it :: it in r <==> it in rows
    ensures |r| == |rows|
  {
    GetAll(rows)
  }

  /** `create_item_service`: the new item with its success message; afterwards a lookup of the new id
      finds it and every other id looks up as before. */
  method CreateItem(table: ItemTable, name: string) returns (r: Result<ItemResponse, Error>)
    requires table.Valid()
    modifies table
    ensures table.Valid()
    ensures |name| > NAME_LENGTH ==> r == Err(INTERNAL_SERVER_ERROR) && table.rows == old(table.rows)
    ensures |name| <= NAME_LENGTH ==> && r == Ok(ItemResponse(ITEM_CREATED, Item(old(table.nextId), name)))
                                      && table.rows == old(table.rows) + [r.value.item]
    ensures r.Ok? ==> GetItemById(table.rows, r.value.item.id) == Ok(r.value.item)
    ensures r.Ok? ==> forall id :: id != r.value.item.id ==> GetItemById(table.rows, id) == GetItemById(old(table.rows), id)
  {
    var created := table.Create(name);
    if created.Err? {
      return Err(created.error);
    }
    r := Ok(ItemResponse(ITEM_CREATED, created.value));
  }

  /** `update_item_service`: 404 with nothing changed for a missing id; otherwise the item, renamed in
      place, with its success message. Afterwards a lookup of the id finds the new name and every other
      id looks up as before. */
  method UpdateItem(table: ItemTable, id: int, name: string) returns (r: Result<ItemResponse, Error>)
    requires table.Valid()
    modifies table
    ensures table.Valid() && table.nextId == old(table.nextId)
    ensures GetById(old(table.rows), id).None? ==> r == Err(NotFound(ITEM_NOT_FOUND)) && table.rows == old(table.rows)
    ensures GetById(old(table.rows), id).Some? && |name| > NAME_LENGTH
            ==> r == Err(INTERNAL_SERVER_ERROR) && table.rows == old(table.rows)
    ensures GetById(old(table.rows), id).Some? && |name| <= NAME_LENGTH
            ==> && r == Ok(ItemResponse(ITEM_UPDATED, GetById(old(table.rows), id).value.(name := name)))
                && table.rows == Renamed(old(table.rows), IndexOf(old(table.rows), id).value, name)
    ensures r.Ok? ==> r.value.item.id == id && r.value.item.name == name
                      && GetItemById(table.rows, id) == Ok(r.value.item)
    ensures r.Ok? ==> forall other :: other != id ==> GetItemById(table.rows, other) == GetItemById(old(table.rows), other)
  {
    IndexOfAgreesWithGetById(table.rows, id);
    var found := GetById(table.rows, id);
    if found.None? {
      return Err(NotFound(ITEM_NOT_FOUND));
    }
    if |name| <= NAME_LENGTH {
      forall other | other != id
        ensures GetById(Renamed(table.rows, IndexOf(table.rows, id).value, name), other) == GetById(table.rows, other)
      {
        RenameOnlyThatItem(table.rows, table.nextId, id, name, other);
      }
      RenameOnlyThatItem(table.rows, table.nextId, id, name, id);
    }
    var updated := table.Update(id, name);
    if updated.Err? {
      return Err(updated.error);
    }
    r := Ok(ItemResponse(ITEM_UPDATED, found.value.(name := name)));
  }

  /** `delete_item_service`: 404 with nothing changed for a missing id; otherwise that item alone is
      removed, after which its id looks up as missing. */
  method DeleteItem(table: ItemTable, id: int) returns (r: Result<string, Error>)
    requires table.Valid()
    modifies table
    ensures table.Valid() && table.nextId == old(table.nextId)
    ensures GetById(old(table.rows), id).None? ==> r == Err(NotFound(ITEM_NOT_FOUND)) && table.rows == old(table.rows)
    ensures GetById(old(table.rows), id).Some?
            ==> && r == Ok(ITEM_DELETED)
                && table.rows == Removed(old(table.rows), IndexOf(old(table.rows), id).value)
    ensures GetItemById(table.rows, id) == Err(NotFound(ITEM_NOT_FOUND))
    ensures forall other :: other != id ==> GetItemById(table.rows, other) == GetItemById(old(table.rows), other)
  {
    IndexOfAgreesWithGetById(table.rows, id);
    var found := GetById(table.rows, id);
    if found.None? {
      return Err(NotFound(ITEM_NOT_FOUND));
    }
    forall other | other != id
      ensures GetById(Removed(table.rows, IndexOf(table.rows, id).value), other) == GetById(table.rows, other)
    {
      RemoveOnlyThatItem(table.rows, table.nextId, id, other);
    }
    var deleted := table.Delete(id);
    r := Ok(ITEM_DELETED);
  }
}
