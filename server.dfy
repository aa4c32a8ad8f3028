/**
 * The HTTP route handlers of the inventory tracker, as state transitions of
 * an in-memory copy of its two tables: `items`, keyed by id, and `users`,
 * keyed by name. Every handler ends in one reply with a status code.
 */
module Server {

  import opened Wrappers
  import opened Inventory

  /** What a handler answers: the status code and the JSON `message`/`error` text. */
  datatype Reply = Ok(message: string) | BadRequest(error: string) | NotFound(error: string)
  {
    function Code(): int {
      match this
      case Ok(_) => 200
      case BadRequest(_) => 400
      case NotFound(_) => 404
    }
  }

  /**
   * The text the storage engine reports when an INSERT repeats the primary
   * key of an existing item; the handler forwards it as the error.
   */
  const DuplicateItemError := "SQLITE_CONSTRAINT: UNIQUE constraint failed: items.id"

  /** A request field that JavaScript treats as truthy: present and not the empty string. */
  predicate Present(field: Option<string>) {
    field.Some? && field.value != ""
  }

  /** The row with its holder and date set to NULL and nothing else touched. */
  function Released(it: Item): (r: Item)
    ensures !r.Held() && r.assignedDate.None?
    ensures r.id == it.id && r.name == it.name && r.description == it.description
  {
    it.(user := None, assignedDate := None)
  }

  /** `UPDATE items SET user = NULL, assignedDate = NULL WHERE id = ?` */
  function Unassigned(items: map<string, Item>, id: string): (r: map<string, Item>)
    ensures r.Keys == items.Keys
    ensures id in items ==> !r[id].Held() && r[id].assignedDate.None?
    ensures id in items ==> r[id].id == items[id].id && r[id].name == items[id].name && r[id].description == items[id].description
    ensures forall k :: k in items && k != id ==> r[k] == items[k]
  {
    if id in items then items[id := Released(items[id])] else items
  }

  /** `UPDATE items SET user = NULL, assignedDate = NULL WHERE user = ?` */
  function ReleasedFrom(items: map<string, Item>, name: string): (r: map<string, Item>)
    ensures r.Keys == items.Keys
    ensures HeldBy(r, name) == {}
    ensures forall k :: k in items && items[k].user != Some(name) ==> r[k] == items[k]
  {
    map k | k in items :: if items[k].user == Some(name) then Released(items[k]) else items[k]
  }

  /** Returning an item twice leaves the table as returning it once. */
  lemma UnassignedIdempotent(items: map<string, Item>, id: string)
    ensures Unassigned(Unassigned(items, id), id) == Unassigned(items, id)
  {
  }

  /**
   * Deleting a user changes exactly the rows that user held, and each of
   * them only in its holder and date.
   */
  lemma ReleasedFromExactlyHolders(items: map<string, Item>, name: string)
    ensures (set k | k in items && ReleasedFrom(items, name)[k] != items[k]) == HeldBy(items, name)
    ensures forall k :: k in HeldBy(items, name) ==> ReleasedFrom(items, name)[k] == Released(items[k])
  {
  }

  /** The cascade keeps the invariant once the user row is gone. */
  lemma ReleasedFromKeepsConsistent(items: map<string, Item>, users: set<string>, name: string)
    requires Consistent(items, users)
    ensures Consistent(ReleasedFrom(items, name), users - {name})
  {
  }

  /** Adding an unassigned row under a fresh id keeps the invariant. */
  lemma NewRowKeepsConsistent(items: map<string, Item>, users: set<string>, row: Item)
    requires Consistent(items, users) && row.id !in items
    requires row.user.None? && row.assignedDate.None?
    ensures Consistent(items[row.id := row], users)
    ensures |items[row.id := row]| == |items| + 1
  {
  }

  /** Returning an item keeps the invariant. */
  lemma UnassignedKeepsConsistent(items: map<string, Item>, users: set<string>, id: string)
    requires Consistent(items, users)
    ensures Consistent(Unassigned(items, id), users)
  {
  }

  /** The in-memory database behind the routes. */
  class Store {
    var items: map<string, Item>
    var users: set<string>

    ghost predicate Valid()
      reads this
    {
      Consistent(items, users)
    }

    /** Two empty tables, as `CREATE TABLE IF NOT EXISTS` leaves a fresh database. */
    constructor ()
      ensures Valid()
      ensures items == map[] && users == {}
    {
      items := map[];
      users := {};
    }

    /**
     * `GET /api/items`: every row once, in an order the storage engine
     * chooses; the rows' ids are therefore distinct.
     */
    method ListItems() returns (rows: seq<Item>)
      requires Valid()
      ensures |rows| == |items|
      ensures forall r :: r in rows <==> r in items.Values
      ensures DistinctIds(rows)
    {
      rows := [];
      var pending := items.Keys;
      while pending != {}
        invariant pending <= items.Keys
        invariant |rows| + |pending| == |items|
        invariant forall i :: 0 <= i < |rows| ==> rows[i].id in items && rows[i].id !in pending && items[rows[i].id] == rows[i]
        invariant forall k :: k in items && k !in pending ==> items[k] in rows
        invariant forall i, j :: 0 <= i < j < |rows| ==> rows[i].id != rows[j].id
        decreases pending
      {
        var k :| k in pending;
        rows := rows + [items[k]];
        pending := pending - {k};
      }
    }

    /** `GET /api/users`: every user name once, in an order the storage engine chooses. */
    method ListUsers() returns (names: seq<string>)
      ensures |names| == |users|
      ensures forall n :: n in names <==> n in users
      ensures forall i, j :: 0 <= i < j < |names| ==> names[i] != names[j]
    {
      names := [];
      var pending := users;
      while pending != {}
        invariant pending <= users
        invariant |names| + |pending| == |users|
        invariant forall i :: 0 <= i < |names| ==> names[i] in users && names[i] !in pending
        invariant forall n :: n in users && n !in pending ==> n in names
        invariant forall i, j :: 0 <= i < j < |names| ==> names[i] != names[j]
        decreases pending
      {
        var n :| n in pending;
        names := names + [n];
        pending := pending - {n};
      }
    }

    /** `POST /api/items` with body `{id, name, description}`. */
    method CreateItem(id: Option<string>, name: Option<string>, description: Option<string>) returns (reply: Reply)
      requires Valid()
      modifies this
      ensures Valid()
      ensures users == old(users)
      ensures !Present(id) || !Present(name) ==>
                reply == BadRequest("ID and name are required") && items == old(items)
      ensures Present(id) && Present(name) && id.value in old(items) ==>
                reply == BadRequest(DuplicateItemError) && items == old(items)
      ensures Present(id) && Present(name) && id.value !in old(items) ==>
                && reply == Ok("Item added successfully")
                && items.Keys == old(items).Keys + {id.value}
                && |items| == |old(items)| + 1
                && items[id.value] == Item(id.value, name, description, None, None)
                && forall k :: k in old(items) ==> items[k] == old(items)[k]
    {
      if !Present(id) || !Present(name) {
        return BadRequest("ID and name are required");
      }
      var key := id.value;
      if key in items {
        return BadRequest(DuplicateItemError);
      }
      var row := Item(key, name, description, None, None);
      NewRowKeepsConsistent(items, users, row);
      items := items[key := row];
      reply := Ok("Item added successfully");
    }

    /** `POST /api/users` with body `{name}`. */
    method CreateUser(name: Option<string>) returns (reply: Reply)
      requires Valid()
      modifies this
      ensures Valid()
      ensures items == old(items)
      ensures !Present(name) ==> reply == BadRequest("Name is required") && users == old(users)
      ensures Present(name) && name.value in old(users) ==>
                reply == BadRequest("User already exists") && users == old(users)
      ensures Present(name) && name.value !in old(users) ==>
                reply == Ok("User added successfully") && users == old(users) + {name.value}
    {
      if !Present(name) {
        return BadRequest("Name is required");
      }
      if name.value in users {
        return BadRequest("User already exists");
      }
      users := users + {name.value};
      reply := Ok("User added successfully");
    }

    /**
     * `DELETE /api/users/:name`: delete the user row, then, if a row was
     * deleted, make every item that user held available again.
     */
    method DeleteUser(name: string) returns (reply: Reply)
      requires Valid()
      modifies this
      ensures Valid()
      ensures name !in old(users) ==>
                reply == NotFound("User not found") && items == old(items) && users == old(users)
      ensures name in old(users) ==>
                && reply == Ok("User deleted successfully")
                && users == old(users) - {name}
                && items == ReleasedFrom(old(items), name)
    {
      var changes := if name in users then 1 else 0;
      users := users - {name};
      if changes == 0 {
        reply := NotFound("User not found");
      } else {
        ReleasedFromKeepsConsistent(items, users + {name}, name);
        items := ReleasedFrom(items, name);
        reply := Ok("User deleted successfully");
      }
    }

    /** `DELETE /api/items/:id`. */
    method DeleteItem(id: string) returns (reply: Reply)
      requires Valid()
      modifies this
      ensures Valid()
      ensures users == old(users)
      ensures id !in old(items) ==> reply == NotFound("Item not found") && items == old(items)
      ensures id in old(items) ==>
                && reply == Ok("Item deleted successfully")
                && items.Keys == old(items).Keys - {id}
                && forall k :: k in items ==> items[k] == old(items)[k]
    {
      var changes := if id in items then 1 else 0;
      items := items - {id};
      if changes == 0 {
        reply := NotFound("Item not found");
      } else {
        reply := Ok("Item deleted successfully");
      }
    }

    /**
     * `POST /api/assign` with body `{itemId, user, assignedDate}`: update the
     * item's holder and date; if no row was updated, insert a row holding
     * only those three columns; then insert the user unless it exists.
     */
    method Assign(itemId: string, user: string, assignedDate: string) returns (reply: Reply)
      requires Valid()
      modifies this
      ensures Valid()
      ensures reply == Ok("Item assigned")
      ensures users == old(users) + {user}
      ensures items.Keys == old(items).Keys + {itemId}
      ensures itemId in old(items) ==>
                items[itemId] == old(items)[itemId].(user := Some(user), assignedDate := Some(assignedDate))
      ensures itemId !in old(items) ==>
                items[itemId] == Item(itemId, None, None, Some(user), Some(assignedDate))
      ensures forall k :: k in old(items) && k != itemId ==> items[k] == old(items)[k]
    {
      var changes := 0;
      if itemId in items {
        items := items[itemId := items[itemId].(user := Some(user), assignedDate := Some(assignedDate))];
        changes := 1;
      }
      if changes == 0 {
        items := items[itemId := Item(itemId, None, None, Some(user), Some(assignedDate))];
      }
      users := users + {user};
      reply := Ok("Item assigned");
    }

    /** `POST /api/return/:id`: always succeeds, whether or not the row exists. */
    method ReturnItem(id: string) returns (reply: Reply)
      requires Valid()
      modifies this
      ensures Valid()
      ensures reply == Ok("Item returned")
      ensures users == old(users)
      ensures items == Unassigned(old(items), id)
    {
      UnassignedKeepsConsistent(items, users, id);
      items := Unassigned(items, id);
      reply := Ok("Item returned");
    }
  }

  /**
   * The walk-through of the tracker's life cycle: an item is added, checked
   * out to a new user, returned, and the user deleted.
   */
  method LifeCycle() {
    var store := new Store();
    var r := store.CreateItem(Some("A1"), Some("Drill"), None);
    assert r.Code() == 200;
    r := store.Assign("A1", "Bob", "T0");
    assert store.items["A1"] == Item("A1", Some("Drill"), None, Some("Bob"), Some("T0"));
    assert "Bob" in store.users;
    r := store.ReturnItem("A1");
    assert store.items["A1"] == Item("A1", Some("Drill"), None, None, None);
    r := store.ReturnItem("A1");
    assert r.Code() == 200 && store.items["A1"] == Item("A1", Some("Drill"), None, None, None);
    r := store.Assign("A1", "Bob", "T1");
    r := store.DeleteUser("Bob");
    assert "Bob" !in store.users;
    assert store.items["A1"] == Item("A1", Some("Drill"), None, None, None);
    r := store.DeleteUser("Bob");
    assert r.Code() == 404;
  }

}
