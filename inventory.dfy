/**
 * The rows of the inventory tracker's two tables and the invariants that
 * tie them together.
 */
module Inventory {

  import opened Wrappers

  /**
   * One row of the `items` table: `id` is the primary key, every other
   * column is nullable text (`None` is NULL). The same record is what
   * `GET /api/items` hands to the browser.
   */
  datatype Item = Item(
    id: string,
    name: Option<string>,
    description: Option<string>,
    user: Option<string>,
    assignedDate: Option<string>)
  {
    /** The item is checked out: some user holds it. */
    predicate Held() {
      user.Some?
    }
  }

  /** Every row is stored under its own primary key. */
  predicate KeyedById(items: map<string, Item>) {
    forall k :: k in items ==> items[k].id == k
  }

  /** `user` and `assignedDate` are both set or both NULL, on every row. */
  predicate AssignmentPaired(items: map<string, Item>) {
    forall k :: k in items ==> (items[k].user.Some? <==> items[k].assignedDate.Some?)
  }

  /** Whoever holds an item is a row of the `users` table. */
  predicate HoldersRegistered(items: map<string, Item>, users: set<string>) {
    forall k :: k in items && items[k].user.Some? ==> items[k].user.value in users
  }

  /** The invariant every route handler preserves. */
  predicate Consistent(items: map<string, Item>, users: set<string>) {
    KeyedById(items) && AssignmentPaired(items) && HoldersRegistered(items, users)
  }

  /** No two rows of a listing share an id. */
  predicate DistinctIds(rows: seq<Item>) {
    forall i, j :: 0 <= i < j < |rows| ==> rows[i].id != rows[j].id
  }

  /** The ids of the items held by `name`. */
  function HeldBy(items: map<string, Item>, name: string): set<string> {
    set k | k in items && items[k].user == Some(name)
  }

}
