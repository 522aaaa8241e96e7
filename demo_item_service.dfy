/** The demo application's item services (`auth_api_demo/services/item_service.py`), which work on the
    items table directly instead of through a repository. Their 404 rule and messages are those of
    `ItemService`. */
module DemoItemService {
  import opened Wrappers
  import opened Http
  import opened ItemRepository
  import ItemService
  import Query

  /** `get_item_by_id_service`: the first item with that id, or 404 "Item not found". */
  function GetItemById(rows: seq<Item>, id: int): (r: Result<Item, Error>)
    ensures r.Err? <==> forall it :: it in rows ==> it.id != id
    ensures r.Ok? ==> r.value in rows && r.value.id == id
    ensures r.Err? ==> r.error == NotFound(ItemService.ITEM_NOT_FOUND)
  {
    match Query.First(rows, (it: Item) => it.id == id)
    case None => Err(NotFound(ItemService.ITEM_NOT_FOUND))
    case Some(it) => Ok(it)
  }

  /** The demo's lookup and the repository-backed one agree on every table and id. */
  lemma GetItemByIdAgrees(rows: seq<Item>, id: int)
    ensures GetItemById(rows, id) == ItemService.GetItemById(rows, id)
  {
  }

  /** `get_all_items_service`: every item. */
  function GetAllItems(rows: seq<Item>): (r: seq<Item>)
    ensures forall it :: it in r <==> it in rows
  {
    rows
  }

  /** `create_item_service`: one new item with a fresh id, returned with its success message. */
  method CreateItem(table: ItemTable, name: string) returns (r: Result<ItemService.ItemResponse, Error>)
    requires table.Valid()
    modifies table
    ensures table.Valid()
    ensures |name| > NAME_LENGTH ==> r == Err(INTERNAL_SERVER_ERROR) && table.rows == old(table.rows)
    ensures |name| <= NAME_LENGTH ==> && r == Ok(ItemService.ItemResponse(ItemService.ITEM_CREATED, Item(old(table.nextId), name)))
                                      && table.rows == old(table.rows) + [r.value.item]
    ensures r.Ok? ==> GetItemById(table.rows, r.value.item.id) == Ok(r.value.item)
  {
    var created := table.Create(name);
    if created.Err? {
      return Err(created.error);
    }
    r := Ok(ItemService.ItemResponse(ItemService.ITEM_CREATED, created.value));
  }

  /** `update_item_service`: 404 with no change for a missing id; otherwise only that item's name is
      replaced, in place, and the item is returned. */
  method UpdateItem(table: ItemTable, id: int, name: string) returns (r: Result<ItemService.ItemResponse, Error>)
    requires table.Valid()
    modifies table
    ensures table.Valid()
    ensures IndexOf(old(table.rows), id).None? ==> r == Err(NotFound(ItemService.ITEM_NOT_FOUND)) && table.rows == old(table.rows)
    ensures IndexOf(old(table.rows), id).Some? && |name| > NAME_LENGTH
            ==> r == Err(INTERNAL_SERVER_ERROR) && table.rows == old(table.rows)
    ensures IndexOf(old(table.rows), id).Some? && |name| <= NAME_LENGTH
            ==> var i := IndexOf(old(table.rows), id).value;
                && r == Ok(ItemService.ItemResponse(ItemService.ITEM_UPDATED, Item(old(table.rows)[i].id, name)))
                && table.rows == Renamed(old(table.rows), i, name)
  {
    var updated := table.Update(id, name);
    match updated
    case Err(e) => r := Err(e);
    case Ok(None) => r := Err(NotFound(ItemService.ITEM_NOT_FOUND));
    case Ok(Some(item)) => r := Ok(ItemService.ItemResponse(ItemService.ITEM_UPDATED, item));
  }

  /** `delete_item_service`: 404 with no change for a missing id; otherwise only that item is removed. */
  method DeleteItem(table: ItemTable, id: int) returns (r: Result<string, Error>)
    requires table.Valid()
    modifies table
    ensures table.Valid()
    ensures IndexOf(old(table.rows), id).None? ==> r == Err(NotFound(ItemService.ITEM_NOT_FOUND)) && table.rows == old(table.rows)
    ensures IndexOf(old(table.rows), id).Some?
            ==> r == Ok(ItemService.ITEM_DELETED) && table.rows == Removed(old(table.rows), IndexOf(old(table.rows), id).value)
    ensures GetItemById(table.rows, id).Err?
  {
    var deleted := table.Delete(id);
    if deleted.None? {
      return Err(NotFound(ItemService.ITEM_NOT_FOUND));
    }
    r := Ok(ItemService.ITEM_DELETED);
  }
}
