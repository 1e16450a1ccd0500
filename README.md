# Inventory items API: a Dafny model of the backend

The backend of this inventory application keeps one relational table, `items`, and exposes it
under `/api/items` through five request handlers (list, get, create, update, delete). This
project models that backend in Dafny:

- `js_value.dfy` — module `JsValue`: the JSON values a request body field can hold
  (`Undef | Null | Str(s) | Num(cents)`), JavaScript truthiness (`Truthy`), the `||` operator
  (`Or`, which yields an operand) and SQL parameter binding (`Bind`, where `undefined` goes to the
  database as NULL).
- `options.dfy` — module `Options`: the `Option` datatype for "a row or nothing".
- `item_model.dfy` — module `ItemModel`: the data access layer of `models/Item.js` as a class
  `ItemTable` whose state is the table (`rows`, a map from id to row), the id sequence (`nextId`)
  and an abstract database clock (`clock`). Each of the five SQL statements is a method whose
  contract gives the new table and the rows returned. The listing lemmas show that
  `ORDER BY id` fixes the answer, and that the listing has one entry per row.
- `item_controller.dfy` — module `ItemController`: the five handlers of
  `controllers/itemController.js` as methods over the table, returning a `Response`
  (status, `success`, `data`, `count`). The create validation (`Rejected`) and the update
  merge (`Merge`) are pure functions. The handlers keep every stored name and price truthy
  (`RequiredPresent`).
- `item_scenarios.dfy` — module `ItemScenarios`: request sequences a client relies on, derived
  from the handler contracts alone.

JavaScript truthiness drives the decisions the model captures. A numeric price of `0` is
rejected by create and silently ignored by update. A price of `"0"` is a non-empty string, so it
is truthy and accepted. An empty-string or `null` description is accepted by update and
overwrites the stored one, because the fallback there tests only for `undefined`.

The handlers check only truthiness, so a negative price such as `Num(-500)` and a name such as
`Str(" ")` are both accepted.

## Model

| member | source | states |
|---|---|---|
| `JsValue.Truthy` | project/backend/controllers/itemController.js:53 | a body value is truthy exactly when it is none of the four falsy values `undefined`, `null`, `""` and `0` |
| `JsValue.Or` | project/backend/controllers/itemController.js:92-94 | JavaScript `or` yields a value that is truthy iff either operand is; it is `a` when `a` is truthy and `b` otherwise |
| `JsValue.Bind` | project/backend/models/Item.js:18 | a bound parameter is never `undefined`: an `undefined` value is bound as NULL, and any other value is stored unchanged and keeps its truthiness |
| `ItemModel.Stored` | project/backend/models/Item.js:17-18 | the row a write stores carries the given id and timestamps, holds no `undefined` column, and holds each given field that was not `undefined` |
| `ItemModel.SortedIdsCount` | project/backend/models/Item.js:5 | a list of rows in strictly ascending id order holds as many distinct ids as entries |
| `ItemModel.ListingLength` | project/backend/models/Item.js:5 | a listing of the table, one entry per row in id order, is exactly as long as the table has rows |
| `ItemModel.SortedSameRows` | project/backend/models/Item.js:5 | two strictly id-sorted lists of equal length holding the same rows are equal |
| `ItemModel.ListingUnique` | project/backend/models/Item.js:5 | any two listings of the same table are equal, so the list order depends only on the ids, not on insertion or update order |
| `ItemModel.ItemTable.GetAll` | project/backend/models/Item.js:4-7 | returns every row of the table and nothing else, each as stored, in strictly ascending id order |
| `ItemModel.ItemTable.GetById` | project/backend/models/Item.js:9-12 | returns the row stored under the id, or nothing exactly when no row has it |
| `ItemModel.ItemTable.Create` | project/backend/models/Item.js:14-21 | inserts one row under the next id of the sequence (larger than every id in the table) with the bound name, description and price and `created_at == updated_at`; returns it; no other row changes |
| `ItemModel.ItemTable.Update` | project/backend/models/Item.js:23-30 | on an existing id, replaces name, description and price, keeps id and `created_at`, refreshes `updated_at`, returns the new row, and changes no other row; on a missing id, returns nothing and changes nothing |
| `ItemModel.ItemTable.Delete` | project/backend/models/Item.js:32-35 | removes exactly the row with the id and returns it; on a missing id, returns nothing and the table is unchanged |
| `ItemController.Rejected` | project/backend/controllers/itemController.js:53 | the create validation rejects a body exactly when its name or its price is one of the four falsy values |
| `ItemController.Merge` | project/backend/controllers/itemController.js:91-95 | a truthy body name or price wins, a falsy one falls back to the stored value; the body description wins unless it is `undefined` |
| `ItemController.EmptyBodyKeepsFields` | project/backend/controllers/itemController.js:91-95 | an update with an empty body writes back the row's own name, description and price |
| `ItemController.FalsyFieldsOnUpdate` | project/backend/controllers/itemController.js:53-95 | a numeric price 0 is rejected on create and ignored on update; a `""` or `null` description overwrites the stored one |
| `ItemController.MergeKeepsRequired` | project/backend/controllers/itemController.js:91-95 | merging over a row with a truthy name and price keeps both truthy, and never yields `undefined` from a stored row |
| `ItemController.GetAllItems` | project/backend/controllers/itemController.js:6-11 | responds 200 with success, `data` the ordered listing of the whole table, and `count` equal to the length of `data`, which is the number of rows |
| `ItemController.GetItemById` | project/backend/controllers/itemController.js:24-37 | responds 404 without success when no row has the id, otherwise 200 with success and exactly that row |
| `ItemController.CreateItem` | project/backend/controllers/itemController.js:50-66 | a falsy name or price responds 400 and leaves the table unchanged; otherwise responds 201 and the table gains exactly one row, under the sequence's next id (the sequence and the clock advance), carrying the body's name, description (NULL when undefined) and price; stored names and prices stay truthy |
| `ItemController.UpdateItem` | project/backend/controllers/itemController.js:79-101 | a missing id responds 404 and leaves the table unchanged; otherwise the row becomes the merge of body and stored row, keeping id and `created_at`, with a later `updated_at` (the clock advances by one), and no other row changes; stored names and prices stay truthy |
| `ItemController.DeleteItem` | project/backend/controllers/itemController.js:114-130 | a missing id responds 404 with no removal; otherwise exactly that row is removed and returned |
| `ItemScenarios.CreateThenGet` | project/backend/controllers/itemController.js:60-66 | creating `Widget` at 9.99 with no description stores NULL as its description, with equal timestamps, under a new id; getting that id returns the same row |
| `ItemScenarios.CreateDeleteCreate` | project/backend/controllers/itemController.js:60-66 | ids are never reused: a row created after an earlier row was deleted gets a larger id, and the deleted id still answers 404 |
| `ItemScenarios.DeleteThenGet` | project/backend/controllers/itemController.js:117-130 | after a delete, a get and a second delete of the same id both respond 404 |
| `ItemScenarios.UpdateDescriptionOnly` | project/backend/controllers/itemController.js:91-95 | updating only the description keeps name and price, sets the description, and leaves `updated_at` later than `created_at` |
| `ItemScenarios.EmptyUpdate` | project/backend/controllers/itemController.js:91-101 | an update with an empty body leaves name, description and price of the row unchanged (only `updated_at` moves) and no other row changes |

## Left out

- The 500 branches of every handler (for example `itemController.js:12-18`): they answer database or driver failures. The model's table never fails.
- Error message strings and the HTTP framework (`req`, `res.status().json()`): a response is a status, a `success` flag, `data` and `count`.
- The connection pool and query execution (`config/database` is not part of this model). Each SQL statement is modelled by its effect on a map.
- Timestamps are values of an abstract clock that each INSERT and UPDATE advances by one, not wall-clock times.
- `created_at`, `updated_at` (on insert) and the id sequence are filled in by column defaults of a schema that is not part of this model. The model assumes the usual ones: a sequence starting at 1 and the current time.
- Route binding (`routes/items.js`): a static table from verb and path to handler, with no logic of its own.
- The frontend (`frontend/src/App.js`): React rendering, dialogs, asynchronous calls and floating-point totals.
- Ids are unbounded integers. A path id that is not a number, or a number outside the id column's integer range, fails in PostgreSQL, which is the 500 branch; the model answers such an id with 404 (it is never a key of the table).
- The database's coercion of column values is not modelled: a text price such as `"9.99"` is stored as sent, not converted to a decimal. Prices are whole cents. A text price that is not a number, such as `"abc"`, makes the INSERT or UPDATE fail in the source, which answers 500; the model stores it and answers 201 or 200.
- Body values are limited to `undefined`, `null`, strings and numbers. Booleans, arrays, objects and `NaN` are not modelled, and neither is a request without a body.
- Concurrency between requests: the handlers run one at a time. The case where a row disappears between the existence check and the write therefore cannot arise. The handlers still model its outcome: `data` would be absent.
