/** `ItemRepository`: create, read, update and delete on the `items` table (`Item(id, name)`). */
module ItemRepository {
  import opened Wrappers
  import opened Http
  import Query

  /** Declared length of the `name` column. */
  const NAME_LENGTH: nat := 100

  /** An item record; `id` is assigned by the table. */
  datatype Item = Item(id: nat, name: string)

  ghost predicate UniqueIds(rows: seq<Item>)
  {
    forall i, j :: 0 <= i < |rows| && 0 <= j < |rows| && rows[i].id == rows[j].id ==> i == j
  }

  /** The table's constraints: unique ids below the next free one, names within their declared length. */
  ghost predicate TableInvariant(rows: seq<Item>, nextId: nat)
  {
    && UniqueIds(rows)
    && (forall i :: 0 <= i < |rows| ==> 1 <= rows[i].id < nextId && |rows[i].name| <= NAME_LENGTH)
    && nextId >= 1
  }

  /** Where the row with this id sits in scan order. */
  function IndexOf(rows: seq<Item>, id: int): Option<nat>
  {
    Query.FirstIndex(rows, (it: Item) => it.id == id)
  }

  /** `get_by_id`: the item with that primary key, or `None`. */
  function GetById(rows: seq<Item>, id: int): (r: Option<Item>)
    ensures r.Some? ==> r.value in rows && r.value.id == id
    ensures r.None? ==> forall it :: it in rows ==> it.id != id
  {
    Query.First(rows, (it: Item) => it.id == id)
  }

  /** `get_all`: every item, in scan order. */
  function GetAll(rows: seq<Item>): seq<Item>
  {
    rows
  }

  /** The rows after the name at position `i` is replaced in place. */
  function Renamed(rows: seq<Item>, i: nat, name: string): seq<Item>
    requires i < |rows|
  {
    rows[i := rows[i].(name := name)]
  }

  /** The rows after the row at position `i` is deleted. */
  function Removed(rows: seq<Item>, i: nat): seq<Item>
    requires i < |rows|
  {
    rows[..i] + rows[i + 1..]
  }

  /** With unique ids, the lookup finds exactly the item that has the id. */
  lemma GetByIdFindsRow(rows: seq<Item>, it: Item)
    requires UniqueIds(rows) && it in rows
    ensures GetById(rows, it.id) == Some(it)
  {
    var r := GetById(rows, it.id);
    var i :| 0 <= i < |rows| && rows[i] == it;
    var j :| 0 <= j < |rows| && rows[j] == r.value;
  }

  /** The listing holds exactly the items that their own id looks up. */
  lemma GetAllAgreesWithGetById(rows: seq<Item>, it: Item)
    requires UniqueIds(rows)
    ensures it in GetAll(rows) <==> GetById(rows, it.id) == Some(it)
  {
    if it in rows { GetByIdFindsRow(rows, it); }
  }

  /** A lookup of a missing id gives nothing, and an existing id's position is found. */
  lemma IndexOfAgreesWithGetById(rows: seq<Item>, id: int)
    ensures IndexOf(rows, id).None? <==> GetById(rows, id).None?
    ensures IndexOf(rows, id).Some? ==> GetById(rows, id) == Some(rows[IndexOf(rows, id).value])
  {
  }

  /** Renaming the item with id `id` keeps its id and position, gives it the new name, and leaves every
      other item as it was; the table's constraints still hold when the new name fits. */
  lemma {:induction false} RenameOnlyThatItem(rows: seq<Item>, nextId: nat, id: int, name: string, other: int)
    requires TableInvariant(rows, nextId) && IndexOf(rows, id).Some?
    requires |name| <= NAME_LENGTH
    ensures var i := IndexOf(rows, id).value;
            && TableInvariant(Renamed(rows, i, name), nextId)
            && GetById(Renamed(rows, i, name), id) == Some(Item(rows[i].id, name))
            && (other != id ==> GetById(Renamed(rows, i, name), other) == GetById(rows, other))
  {
    var i := IndexOf(rows, id).value;
    var s := Renamed(rows, i, name);
    assert |s| == |rows|;
    forall k | 0 <= k < |s| ensures s[k].id == rows[k].id { }
    assert TableInvariant(s, nextId);
    assert s[i] == Item(rows[i].id, name);
    GetByIdFindsRow(s, s[i]);
    if other != id {
      match GetById(rows, other)
      case None =>
        forall x | x in s ensures x.id != other {
          var k :| 0 <= k < |s| && s[k] == x;
        }
      case Some(y) =>
        GetByIdFindsRow(rows, y);
        var k :| 0 <= k < |rows| && rows[k] == y;
        assert k != i;
        assert s[k] == y;
        GetByIdFindsRow(s, y);
    }
  }

  /** Deleting the item with id `id` leaves no item with that id and every other one as it was. */
  lemma {:induction false} RemoveOnlyThatItem(rows: seq<Item>, nextId: nat, id: int, other: int)
    requires TableInvariant(rows, nextId) && IndexOf(rows, id).Some?
    ensures var i := IndexOf(rows, id).value;
            && TableInvariant(Removed(rows, i), nextId)
            && |Removed(rows, i)| == |rows| - 1
            && GetById(Removed(rows, i), id).None?
            && (other != id ==> GetById(Removed(rows, i), other) == GetById(rows, other))
  {
    var i := IndexOf(rows, id).value;
    var s := Removed(rows, i);
    assert forall k :: 0 <= k < i ==> s[k] == rows[k];
    assert forall k :: i <= k < |s| ==> s[k] == rows[k + 1];
    assert TableInvariant(s, nextId);
    forall x | x in s ensures x.id != id {
      var k :| 0 <= k < |s| && s[k] == x;
      if k < i { assert s[k] == rows[k]; } else { assert s[k] == rows[k + 1]; }
    }
    if other != id {
      match GetById(rows, other)
      case None =>
        forall x | x in s ensures x.id != other {
          var k :| 0 <= k < |s| && s[k] == x;
          if k < i { assert rows[k] in rows; } else { assert rows[k + 1] in rows; }
        }
      case Some(y) =>
        var k :| 0 <= k < |rows| && rows[k] == y;
        assert k != i;
        if k < i { assert s[k] == y; } else { assert s[k - 1] == y; }
        GetByIdFindsRow(s, y);
    }
  }

  /** The items table as the repository's session sees it, with the id the next insert receives. */
  class ItemTable {
    var rows: seq<Item>
    var nextId: nat

    ghost predicate Valid()
      reads this
    {
      TableInvariant(rows, nextId)
    }

    /** An empty table. */
    constructor ()
      ensures Valid() && rows == [] && nextId == 1
    {
      rows := [];
      nextId := 1;
    }

    /** `create`: one new item with a fresh id and that name; a name longer than its column is refused
        by the table as a server error with nothing written. */
    method Create(name: string) returns (r: Result<Item, Error>)
      requires Valid()
      modifies this
      ensures Valid()
      ensures |name| > NAME_LENGTH ==> r == Err(INTERNAL_SERVER_ERROR) && rows == old(rows) && nextId == old(nextId)
      ensures |name| <= NAME_LENGTH ==> && r == Ok(Item(old(nextId), name))
                                        && rows == old(rows) + [r.value] && nextId == old(nextId) + 1
      ensures r.Ok? ==> GetById(rows, r.value.id) == Some(r.value)
      ensures r.Ok? ==> forall id :: id != r.value.id ==> GetById(rows, id) == GetById(old(rows), id)
    {
      if |name| > NAME_LENGTH {
        return Err(INTERNAL_SERVER_ERROR);
      }
      var newId := nextId;
      var item := Item(newId, name);
      forall y | y in rows ensures y.id != newId {
        var k :| 0 <= k < |rows| && rows[k] == y;
      }
      Query.FirstOfAppended(rows, item, (it: Item) => it.id == newId);
      forall id | id != item.id ensures GetById(rows + [item], id) == GetById(rows, id) {
        Query.FirstOfAppendedOther(rows, item, (it: Item) => it.id == id);
      }
      assert (rows + [item])[|rows|] == item;
      rows := rows + [item];
      nextId := nextId + 1;
      r := Ok(item);
    }

    /** `update`: on an existing id, only that item's name changes in place, and the updated item is
        returned; a name too long for its column is refused as a server error with nothing written.
        On a missing id nothing changes and `None` is returned. */
    method Update(id: int, name: string) returns (r: Result<Option<Item>, Error>)
      requires Valid()
      modifies this
      ensures Valid() && nextId == old(nextId)
      ensures IndexOf(old(rows), id).None? ==> r == Ok(None) && rows == old(rows)
      ensures IndexOf(old(rows), id).Some? && |name| > NAME_LENGTH
              ==> r == Err(INTERNAL_SERVER_ERROR) && rows == old(rows)
      ensures IndexOf(old(rows), id).Some? && |name| <= NAME_LENGTH
              ==> var i := IndexOf(old(rows), id).value;
                  r == Ok(Some(Item(old(rows)[i].id, name))) && rows == Renamed(old(rows), i, name)
    {
      var i := IndexOf(rows, id);
      if i.None? {
        return Ok(None);
      }
      if |name| > NAME_LENGTH {
        return Err(INTERNAL_SERVER_ERROR);
      }
      RenameOnlyThatItem(rows, nextId, id, name, id);
      var updated := rows[i.value].(name := name);
      rows := Renamed(rows, i.value, name);
      r := Ok(Some(updated));
    }

    /** `delete`: on an existing id, that item alone is removed and returned; on a missing id nothing
        changes and `None` is returned. */
    method Delete(id: int) returns (r: Option<Item>)
      requires Valid()
      modifies this
      ensures Valid() && nextId == old(nextId)
      ensures IndexOf(old(rows), id).None? ==> r == None && rows == old(rows)
      ensures IndexOf(old(rows), id).Some?
              ==> var i := IndexOf(old(rows), id).value;
                  r == Some(old(rows)[i]) && rows == Removed(old(rows), i)
      ensures GetById(rows, id).None?
    {
      var i := IndexOf(rows, id);
      if i.None? {
        return None;
      }
      RemoveOnlyThatItem(rows, nextId, id, id);
      r := Some(rows[i.value]);
      rows := Removed(rows, i.value);
    }
  }
}
