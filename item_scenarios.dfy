/**
 * Request sequences a client of `/api/items` relies on, proved from the handlers' contracts
 * alone.
 */
module ItemScenarios {

  import opened Options
  import opened JsValue
  import opened ItemModel
  import opened ItemController

  /**
   * Creating `{name: "Widget", price: 9.99}` stores a row under a new id whose description is
   * NULL and whose two timestamps agree; fetching that id then answers with the same row.
   */
  method CreateThenGet(t: ItemTable) returns (created: Response, fetched: Response)
    requires t.Valid()
    modifies t
    ensures t.Valid()
    ensures created.status == 201 && created.success && created.data.One?
    ensures var r := created.data.item;
              && r.id !in old(t.rows)
              && r.name == Str("Widget") && r.description == Null && r.price == Num(999)
              && r.createdAt == r.updatedAt
              && fetched == Response(200, true, One(r), None)
  {
    created := CreateItem(t, Body(Str("Widget"), Undef, Num(999)));
    fetched := GetItemById(t, created.data.item.id);
  }

  /**
   * Ids are never reused: a row created after an earlier one was deleted gets a new id, larger
   * than the deleted one, and fetching the deleted id still answers 404.
   */
  method CreateDeleteCreate(t: ItemTable, first: Body, second: Body)
    returns (created: Response, deleted: Response, recreated: Response, fetched: Response)
    requires t.Valid()
    requires !Rejected(first) && !Rejected(second)
    modifies t
    ensures t.Valid()
    ensures created.status == 201 && created.data.One?
    ensures deleted.status == 200 && deleted.data == created.data
    ensures recreated.status == 201 && recreated.data.One?
    ensures created.data.item.id < recreated.data.item.id
    ensures fetched == NOT_FOUND
  {
    created := CreateItem(t, first);
    deleted := DeleteItem(t, created.data.item.id);
    recreated := CreateItem(t, second);
    fetched := GetItemById(t, created.data.item.id);
  }

  /** After a delete, fetching or deleting the same id again answers 404, whether or not it existed. */
  method DeleteThenGet(t: ItemTable, id: int) returns (deleted: Response, fetched: Response, again: Response)
    requires t.Valid()
    modifies t
    ensures t.Valid()
    ensures deleted.status == (if id in old(t.rows) then 200 else 404)
    ensures fetched == NOT_FOUND && again == NOT_FOUND
    ensures t.rows == old(t.rows) - {id}
  {
    deleted := DeleteItem(t, id);
    fetched := GetItemById(t, id);
    again := DeleteItem(t, id);
  }

  /**
   * Updating only the description of an existing row keeps its name and price, sets the new
   * description, and leaves `updated_at` later than `created_at`.
   */
  method UpdateDescriptionOnly(t: ItemTable, id: int, description: Value) returns (resp: Response)
    requires t.Valid()
    requires description != Undef
    modifies t
    ensures t.Valid()
    ensures id in old(t.rows) ==>
              && resp.status == 200 && resp.data.One?
              && var r := resp.data.item;
              && r.name == old(t.rows)[id].name && r.price == old(t.rows)[id].price
              && r.description == description
              && r.createdAt < r.updatedAt
    ensures id !in old(t.rows) ==> resp == NOT_FOUND
  {
    resp := UpdateItem(t, id, Body(Undef, description, Undef));
  }

  /** An update with an empty body rewrites an existing row with its own name, description and price. */
  method EmptyUpdate(t: ItemTable, id: int) returns (resp: Response)
    requires t.Valid()
    modifies t
    ensures t.Valid()
    ensures id in old(t.rows) ==>
              && var before := old(t.rows)[id];
              && resp.status == 200 && resp.success && resp.data.One?
              && resp.data.item == before.(updatedAt := resp.data.item.updatedAt)
              && t.rows == old(t.rows)[id := resp.data.item]
    ensures id !in old(t.rows) ==> resp == NOT_FOUND && t.rows == old(t.rows)
  {
    resp := UpdateItem(t, id, EMPTY_BODY);
  }
}
