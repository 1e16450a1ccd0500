/**
 * The data access layer: one `items` table reached through five parameterised SQL statements.
 * The table is a map from primary key to row; `nextId` is the identity sequence and `clock`
 * the database clock that `created_at` and `updated_at` are read from.
 */
module ItemModel {

  import opened Options
  import opened JsValue

  /** What `create` and `update` are given: the three user-editable columns. */
  datatype Fields = Fields(name: Value, description: Value, price: Value)

  /** A row as `RETURNING *` and `SELECT *` give it back. */
  datatype Row = Row(id: int, name: Value, description: Value, price: Value, createdAt: int, updatedAt: int)

  /** The row a write stores for `f`: every column bound as a SQL parameter. */
  function Stored(id: int, f: Fields, createdAt: int, updatedAt: int): (r: Row)
    ensures r.id == id && r.createdAt == createdAt && r.updatedAt == updatedAt
    ensures r.name != Undef && r.description != Undef && r.price != Undef
    ensures f.name != Undef ==> r.name == f.name
    ensures f.description != Undef ==> r.description == f.description
    ensures f.price != Undef ==> r.price == f.price
  {
    Row(id, Bind(f.name), Bind(f.description), Bind(f.price), createdAt, updatedAt)
  }

  /** `items` is in strictly ascending order of id. */
  ghost predicate SortedById(items: seq<Row>)
  {
    forall i, j :: 0 <= i < j < |items| ==> items[i].id < items[j].id
  }

  /** `items` is what `SELECT * FROM items ORDER BY id` gives for `rows`. */
  ghost predicate IsListing(items: seq<Row>, rows: map<int, Row>)
  {
    && SortedById(items)
    && (forall i :: 0 <= i < |items| ==> items[i].id in rows && rows[items[i].id] == items[i])
    && (forall k :: k in rows ==> rows[k] in items)
  }

  /** The ids appearing in a list of rows. */
  ghost function Ids(items: seq<Row>): set<int>
  {
    set i | 0 <= i < |items| :: items[i].id
  }

  lemma {:induction false} SortedIdsCount(items: seq<Row>)
    requires SortedById(items)
    ensures |Ids(items)| == |items|
  {
    if items != [] {
      var tail := items[1..];
      assert SortedById(tail) by {
        forall i, j | 0 <= i < j < |tail| ensures tail[i].id < tail[j].id {
          assert tail[i] == items[i + 1] && tail[j] == items[j + 1];
        }
      }
      SortedIdsCount(tail);
      assert Ids(items) == {items[0].id} + Ids(tail) by {
        forall x | x in Ids(items) ensures x in {items[0].id} + Ids(tail) {
          var i :| 0 <= i < |items| && items[i].id == x;
          if i > 0 { assert tail[i - 1] == items[i]; }
        }
        forall x | x in Ids(tail) ensures x in Ids(items) {
          var i :| 0 <= i < |tail| && tail[i].id == x;
          assert items[i + 1] == tail[i];
        }
      }
      assert items[0].id !in Ids(tail) by {
        forall i | 0 <= i < |tail| ensures tail[i].id != items[0].id {
          assert items[i + 1] == tail[i];
        }
      }
    }
  }

  /** A listing holds exactly one entry per row of the table, so its length is the row count. */
  lemma ListingLength(items: seq<Row>, rows: map<int, Row>)
    requires IsListing(items, rows)
    requires forall k :: k in rows ==> rows[k].id == k
    ensures |items| == |rows|
  {
    SortedIdsCount(items);
    assert Ids(items) == rows.Keys by {
      forall k | k in rows ensures k in Ids(items) {
        var i :| 0 <= i < |items| && items[i] == rows[k];
      }
    }
  }

  /** The tail of a sorted list is sorted, and holds exactly the entries after the head. */
  lemma SortedTail(a: seq<Row>)
    requires SortedById(a) && a != []
    ensures SortedById(a[1..])
    ensures forall r :: r in a[1..] <==> r in a && r != a[0]
  {
    var tail := a[1..];
    forall i, j | 0 <= i < j < |tail| ensures tail[i].id < tail[j].id {
      assert tail[i] == a[i + 1] && tail[j] == a[j + 1];
    }
    forall r | r in a && r != a[0] ensures r in tail {
      var i :| 0 <= i < |a| && a[i] == r;
      assert tail[i - 1] == a[i];
    }
    forall r | r in tail ensures r != a[0] {
      var i :| 0 <= i < |tail| && tail[i] == r;
      assert a[i + 1] == r;
    }
  }

  /** Two strictly sorted lists of the same length holding the same entries are equal. */
  lemma {:induction false} SortedSameRows(a: seq<Row>, b: seq<Row>)
    requires SortedById(a) && SortedById(b) && |a| == |b|
    requires forall r :: r in a <==> r in b
    ensures a == b
    decreases |a|
  {
    if a != [] {
      assert a[0] in a && b[0] in b;
      var j :| 0 <= j < |b| && b[j] == a[0];
      var i :| 0 <= i < |a| && a[i] == b[0];
      assert a[0].id <= a[i].id && b[0].id <= b[j].id;
      assert j == 0;
      SortedTail(a);
      SortedTail(b);
      SortedSameRows(a[1..], b[1..]);
      assert a == [a[0]] + a[1..];
      assert b == [b[0]] + b[1..];
    }
  }

  /**
   * `ORDER BY id` fixes the answer: two listings of the same table are equal, whatever order the
   * rows were inserted or updated in.
   */
  lemma ListingUnique(a: seq<Row>, b: seq<Row>, rows: map<int, Row>)
    requires IsListing(a, rows) && IsListing(b, rows)
    requires forall k :: k in rows ==> rows[k].id == k
    ensures a == b
  {
    ListingLength(a, rows);
    ListingLength(b, rows);
    forall r ensures r in a <==> r in b {
      if r in a {
        var i :| 0 <= i < |a| && a[i] == r;
      }
      if r in b {
        var i :| 0 <= i < |b| && b[i] == r;
      }
    }
    SortedSameRows(a, b);
  }

  /** The `items` table, as the static methods of class `Item` see it. */
  class ItemTable {
    var rows: map<int, Row>
    var nextId: int
    var clock: int

    /**
     * Each row sits under its own id, ids were handed out by the sequence (at least 1 and below
     * `nextId`), timestamps were read from the clock (`created_at <= updated_at` and both before
     * `clock`), and no column holds `undefined`, which SQL cannot store.
     */
    ghost predicate Valid()
      reads this
    {
      && 1 <= nextId
      && forall k :: k in rows ==> RowOk(k, rows[k])
    }

    ghost predicate RowOk(k: int, r: Row)
      reads this
    {
      && r.id == k && 1 <= k < nextId
      && r.createdAt <= r.updatedAt < clock
      && r.name != Undef && r.description != Undef && r.price != Undef
    }

    /** An empty table whose identity sequence starts at 1. */
    constructor ()
      ensures Valid()
      ensures rows == map[] && nextId == 1
    {
      rows := map[];
      nextId := 1;
      clock := 0;
    }

    /** `SELECT * FROM items ORDER BY id`: every row, ascending by id, read off the primary key. */
    method GetAll() returns (items: seq<Row>)
      requires Valid()
      ensures SortedById(items)
      ensures forall i :: 0 <= i < |items| ==> items[i].id in rows && rows[items[i].id] == items[i]
      ensures forall k :: k in rows ==> rows[k] in items
    {
      items := [];
      var k := 1;
      while k < nextId
        invariant 1 <= k <= nextId
        invariant SortedById(items)
        invariant forall i :: 0 <= i < |items| ==> items[i].id in rows && rows[items[i].id] == items[i] && items[i].id < k
        invariant forall j :: j in rows && j < k ==> rows[j] in items
      {
        if k in rows {
          items := items + [rows[k]];
        }
        k := k + 1;
      }
    }

    /** `SELECT * FROM items WHERE id = $1`: the row with that id, or nothing. */
    method GetById(id: int) returns (r: Option<Row>)
      requires Valid()
      ensures r.Some? <==> id in rows
      ensures r.Some? ==> r.value == rows[id] && r.value.id == id
    {
      if id in rows {
        r := Some(rows[id]);
      } else {
        r := None;
      }
    }

    /**
     * `INSERT INTO items (name, description, price) VALUES ($1, $2, $3) RETURNING *`: a new row
     * under the next id of the sequence, with both timestamps read from the clock; no existing
     * row changes and the new id is larger than every id in the table.
     */
    method Create(f: Fields) returns (r: Row)
      requires Valid()
      modifies this
      ensures Valid()
      ensures r == Stored(old(nextId), f, old(clock), old(clock))
      ensures r.id !in old(rows) && forall k :: k in old(rows) ==> k < r.id
      ensures rows == old(rows)[r.id := r]
      ensures nextId == old(nextId) + 1 && clock == old(clock) + 1
    {
      r := Stored(nextId, f, clock, clock);
      rows := rows[nextId := r];
      nextId := nextId + 1;
      clock := clock + 1;
    }

    /**
     * `UPDATE items SET name = $1, description = $2, price = $3, updated_at = CURRENT_TIMESTAMP
     * WHERE id = $4 RETURNING *`: on an existing id the three columns are replaced, the id and
     * `created_at` kept, `updated_at` refreshed, and no other row changes; on a missing id
     * nothing is returned and nothing changes.
     */
    method Update(id: int, f: Fields) returns (r: Option<Row>)
      requires Valid()
      modifies this
      ensures Valid()
      ensures r.Some? <==> id in old(rows)
      ensures nextId == old(nextId)
      ensures id in old(rows) ==>
                && r == Some(Stored(id, f, old(rows)[id].createdAt, old(clock)))
                && rows == old(rows)[id := r.value]
                && clock == old(clock) + 1
      ensures id !in old(rows) ==> rows == old(rows) && clock == old(clock)
    {
      if id in rows {
        var row := Stored(id, f, rows[id].createdAt, clock);
        rows := rows[id := row];
        clock := clock + 1;
        r := Some(row);
      } else {
        r := None;
      }
    }

    /**
     * `DELETE FROM items WHERE id = $1 RETURNING *`: removes exactly the row with that id and
     * returns it; on a missing id returns nothing and the table is unchanged.
     */
    method Delete(id: int) returns (r: Option<Row>)
      requires Valid()
      modifies this
      ensures Valid()
      ensures nextId == old(nextId) && clock == old(clock)
      ensures r.Some? <==> id in old(rows)
      ensures id in old(rows) ==> r.value == old(rows)[id]
      ensures rows == old(rows) - {id}
    {
      if id in rows {
        r := Some(rows[id]);
        rows := rows - {id};
      } else {
        r := None;
      }
    }
  }
}
