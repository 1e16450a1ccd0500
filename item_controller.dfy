/**
 * The request handlers of `/api/items`: each reads the request, calls the data access layer and
 * answers with the envelope `{success, data, count?}` under an HTTP status.
 */
module ItemController {

  import opened Options
  import opened JsValue
  import opened ItemModel

  /** The three fields destructured from `req.body`; a key the client left out is `Undef`. */
  datatype Body = Body(name: Value, description: Value, price: Value)

  const EMPTY_BODY := Body(Undef, Undef, Undef)

  /** The `data` member of the envelope: absent, one row, or the list of rows. */
  datatype Payload = NoData | One(item: Row) | Many(items: seq<Row>)

  /** The HTTP status and the JSON envelope; `count` is sent by the list handler only. */
  datatype Response = Response(status: int, success: bool, data: Payload, count: Option<int>)

  const NOT_FOUND := Response(404, false, NoData, None)
  const BAD_REQUEST := Response(400, false, NoData, None)

  /** The create validation `!name || !price`. */
  predicate Rejected(body: Body)
    ensures Rejected(body) <==> body.name in FALSY || body.price in FALSY
  {
    !Truthy(body.name) || !Truthy(body.price)
  }

  /**
   * The columns an update writes: `name || existing.name`, the body's description unless it is
   * `undefined`, and `price || existing.price`.
   */
  function Merge(existing: Row, body: Body): (f: Fields)
    ensures Truthy(body.name) ==> f.name == body.name
    ensures !Truthy(body.name) ==> f.name == existing.name
    ensures body.description != Undef ==> f.description == body.description
    ensures body.description == Undef ==> f.description == existing.description
    ensures Truthy(body.price) ==> f.price == body.price
    ensures !Truthy(body.price) ==> f.price == existing.price
  {
    Fields(Or(body.name, existing.name),
           if body.description != Undef then body.description else existing.description,
           Or(body.price, existing.price))
  }

  /** An update with an empty body writes back the row's own name, description and price. */
  lemma EmptyBodyKeepsFields(existing: Row)
    ensures Merge(existing, EMPTY_BODY) == Fields(existing.name, existing.description, existing.price)
  {
  }

  /**
   * A price of numeric 0 fails the create validation and is dropped by an update, while an
   * empty-string or `null` description is written over the stored one.
   */
  lemma FalsyFieldsOnUpdate(existing: Row, body: Body)
    ensures body.price == Num(0) ==> Rejected(body) && Merge(existing, body).price == existing.price
    ensures body.description == Str("") ==> Merge(existing, body).description == Str("")
    ensures body.description == Null ==> Merge(existing, body).description == Null
  {
  }

  /** A merge keeps a truthy name and price truthy, and never produces `undefined` from a stored row. */
  lemma MergeKeepsRequired(existing: Row, body: Body)
    ensures Truthy(existing.name) ==> Truthy(Merge(existing, body).name)
    ensures Truthy(existing.price) ==> Truthy(Merge(existing, body).price)
    ensures existing.name != Undef && existing.description != Undef && existing.price != Undef ==>
              var f := Merge(existing, body);
              f.name != Undef && f.description != Undef && f.price != Undef
  {
  }

  /** Every row holds a truthy name and price: what the handlers keep true of the table. */
  ghost predicate RequiredPresent(t: ItemTable)
    reads t
  {
    forall k :: k in t.rows ==> Truthy(t.rows[k].name) && Truthy(t.rows[k].price)
  }

  /** `GET /`: success with every row in id order, and `count` the number of rows listed. */
  method GetAllItems(t: ItemTable) returns (resp: Response)
    requires t.Valid()
    ensures resp.status == 200 && resp.success && resp.data.Many?
    ensures IsListing(resp.data.items, t.rows)
    ensures resp.count == Some(|resp.data.items|) && |resp.data.items| == |t.rows|
  {
    var items := t.GetAll();
    ListingLength(items, t.rows);
    resp := Response(200, true, Many(items), Some(|items|));
  }

  /** `GET /:id`: 404 when no row has the id, otherwise success with exactly that row. */
  method GetItemById(t: ItemTable, id: int) returns (resp: Response)
    requires t.Valid()
    ensures id !in t.rows ==> resp == NOT_FOUND
    ensures id in t.rows ==> resp.status == 200 && resp.success && resp.data == One(t.rows[id])
    ensures resp.count == None
  {
    var item := t.GetById(id);
    if item.None? {
      return NOT_FOUND;
    }
    resp := Response(200, true, One(item.value), None);
  }

  /**
   * `POST /`: a falsy name or price answers 400 and leaves the table alone; otherwise one new row
   * carrying the body's name, description (`undefined` stored as NULL) and price is inserted
   * under a fresh id, answered with 201. The table keeps every name and price truthy.
   */
  method CreateItem(t: ItemTable, body: Body) returns (resp: Response)
    requires t.Valid()
    modifies t
    ensures t.Valid()
    ensures Rejected(body) ==>
              resp == BAD_REQUEST && t.rows == old(t.rows) && t.nextId == old(t.nextId) && t.clock == old(t.clock)
    ensures !Rejected(body) ==>
              && resp.status == 201 && resp.success && resp.data.One? && resp.count == None
              && var r := resp.data.item;
              && r.id == old(t.nextId) && r.id !in old(t.rows) && t.rows == old(t.rows)[r.id := r]
              && t.nextId == old(t.nextId) + 1 && t.clock == old(t.clock) + 1
              && r.name == body.name && r.description == Bind(body.description) && r.price == body.price
              && r.createdAt == r.updatedAt == old(t.clock)
    ensures old(RequiredPresent(t)) ==> RequiredPresent(t)
  {
    if Rejected(body) {
      return BAD_REQUEST;
    }
    var newItem := t.Create(Fields(body.name, body.description, body.price));
    resp := Response(201, true, One(newItem), None);
  }

  /**
   * `PUT /:id`: 404 with the table untouched when the id has no row; otherwise the row is
   * rewritten with the merged fields, keeping its id and `created_at`, refreshing `updated_at`,
   * and leaving every other row as it was.
   */
  method UpdateItem(t: ItemTable, id: int, body: Body) returns (resp: Response)
    requires t.Valid()
    modifies t
    ensures t.Valid() && t.nextId == old(t.nextId)
    ensures id !in old(t.rows) ==> resp == NOT_FOUND && t.rows == old(t.rows) && t.clock == old(t.clock)
    ensures id in old(t.rows) ==>
              && var before := old(t.rows)[id];
              && var f := Merge(before, body);
              && var r := Row(id, f.name, f.description, f.price, before.createdAt, old(t.clock));
              && resp == Response(200, true, One(r), None)
              && t.rows == old(t.rows)[id := r]
              && t.clock == old(t.clock) + 1
              && before.createdAt <= before.updatedAt < r.updatedAt
    ensures old(RequiredPresent(t)) ==> RequiredPresent(t)
  {
    var existing := t.GetById(id);
    if existing.None? {
      return NOT_FOUND;
    }
    MergeKeepsRequired(existing.value, body);
    var updated := t.Update(id, Merge(existing.value, body));
    resp := Response(200, true, if updated.Some? then One(updated.value) else NoData, None);
  }

  /**
   * `DELETE /:id`: 404 with the table untouched when the id has no row; otherwise exactly that
   * row is removed and sent back.
   */
  method DeleteItem(t: ItemTable, id: int) returns (resp: Response)
    requires t.Valid()
    modifies t
    ensures t.Valid() && t.nextId == old(t.nextId) && t.clock == old(t.clock)
    ensures id !in old(t.rows) ==> resp == NOT_FOUND && t.rows == old(t.rows)
    ensures id in old(t.rows) ==>
              resp == Response(200, true, One(old(t.rows)[id]), None) && t.rows == old(t.rows) - {id}
    ensures old(RequiredPresent(t)) ==> RequiredPresent(t)
  {
    var existing := t.GetById(id);
    if existing.None? {
      return NOT_FOUND;
    }
    var deleted := t.Delete(id);
    resp := Response(200, true, if deleted.Some? then One(deleted.value) else NoData, None);
  }
}
