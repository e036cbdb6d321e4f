/**
 * The to-do store: a map from id to record, shared by every request, and the
 * five operations the router calls on it (`process_request_get_todos`,
 * `get_todo`, `create_todo`, `update_todo`, `delete_todo`). The source keys
 * its `HashMap` by `id.to_string()`; since that text determines the id
 * (Text.ParseDecimal), the model keys by the id itself.
 */
module TodoStore {
  import opened Wrappers

  /** `Todo`: one stored item. */
  datatype Todo = Todo(id: nat, title: string, completed: bool)

  /** What a handler hands to the connection handler to serialize. */
  datatype Body =
    | Message(text: string)      // a plain message
    | Record(todo: Todo)         // one record as a JSON object
    | Records(todos: seq<Todo>)  // the records as a JSON array

  /** A `(status, body)` pair, or a panic of the handling thread. */
  datatype Outcome = Reply(status: string, body: Body) | Panicked

  const OK := "200 OK"
  const CREATED := "201 Created"
  const BAD_REQUEST := "400 Bad Request"
  const NOT_FOUND := "404 Not Found"
  const METHOD_NOT_ALLOWED := "405 Method Not Allowed"
  const VERSION_NOT_SUPPORTED := "505 HTTP Version Not Supported"

  const TODO_NOT_FOUND := "Todo not found."
  const TODO_DELETED := "Todo has been deleted."

  /** The store's contents: id to record. */
  type Db = map<nat, Todo>

  /** Every record is stored under its own id. */
  ghost predicate IdsMatchKeys(db: Db) {
    forall k :: k in db ==> db[k].id == k
  }

  /** The record `create_todo` builds: the next id is the current size plus one. */
  function NewTodo(db: Db, title: string): Todo {
    Todo(|db| + 1, title, false)
  }

  /** The record `update_todo` leaves behind: each supplied field replaced, the others kept. */
  function Patch(t: Todo, title: Option<string>, completed: Option<bool>): Todo {
    t.(title := title.GetOr(t.title), completed := completed.GetOr(t.completed))
  }

  /**
   * `items` lists the records of `db` in the iteration order `order`: each
   * key of `db` exactly once, each item the record under its key.
   */
  ghost predicate Enumerates(order: seq<nat>, items: seq<Todo>, db: Db) {
    && |order| == |items|
    && (forall i :: 0 <= i < |order| ==> order[i] in db && items[i] == db[order[i]])
    && (forall i, j :: 0 <= i < j < |order| ==> order[i] != order[j])
    && (forall k :: k in db ==> k in order)
  }

  /** `items` lists the records of `db` in some order (a `HashMap` promises none). */
  ghost predicate IsListing(items: seq<Todo>, db: Db) {
    exists order :: Enumerates(order, items, db)
  }

  /** The store operations, as the router requests them. */
  datatype Op =
    | ListTodos
    | GetTodo(id: nat)
    | CreateTodo(title: string)
    | UpdateTodo(id: nat, newTitle: Option<string>, newCompleted: Option<bool>)
    | DeleteTodo(id: nat)

  /**
   * What each operation does: `out` is its reply and `db'` the store after
   * it, starting from `db`.
   */
  ghost predicate Performs(db: Db, op: Op, out: Outcome, db': Db) {
    match op
    case ListTodos =>
      && db' == db
      && out.Reply? && out.status == OK && out.body.Records? && IsListing(out.body.todos, db)
    case GetTodo(id) =>
      && db' == db
      && out == (if id in db then Reply(OK, Record(db[id])) else Reply(NOT_FOUND, Message(TODO_NOT_FOUND)))
    case CreateTodo(title) =>
      var t := NewTodo(db, title);
      db' == db[t.id := t] && out == Reply(CREATED, Record(t))
    case UpdateTodo(id, title, completed) =>
      if id in db then
        var t := Patch(db[id], title, completed);
        db' == db[id := t] && out == Reply(OK, Record(t))
      else
        db' == db && out == Reply(NOT_FOUND, Message(TODO_NOT_FOUND))
    case DeleteTodo(id) =>
      if id in db then
        db' == db - {id} && out == Reply(OK, Message(TODO_DELETED))
      else
        db' == db && out == Reply(NOT_FOUND, Message(TODO_NOT_FOUND))
  }

  /** The shared store (`Db`, a `HashMap` behind a mutex; each call is one atomic step). */
  class Store {
    var db: Db

    ghost predicate Valid()
      reads this
    {
      IdsMatchKeys(db)
    }

    constructor ()
      ensures db == map[] && Valid()
    {
      db := map[];
    }

    /** `db.values().collect()`: every record once, in an order the map chooses. */
    method Values() returns (items: seq<Todo>, ghost order: seq<nat>)
      ensures Enumerates(order, items, db)
    {
      var rest := db.Keys;
      items, order := [], [];
      while rest != {}
        invariant rest <= db.Keys
        invariant |order| == |items|
        invariant forall i :: 0 <= i < |order| ==> order[i] in db && order[i] !in rest && items[i] == db[order[i]]
        invariant forall i, j :: 0 <= i < j < |order| ==> order[i] != order[j]
        invariant forall k :: k in db && k !in rest ==> k in order
        decreases rest
      {
        var k :| k in rest;
        items, order := items + [db[k]], order + [k];
        rest := rest - {k};
      }
    }

    /** `process_request_get_todos`: all records, as a JSON array. */
    method List() returns (out: Outcome)
      ensures Performs(db, ListTodos, out, db)
    {
      var items, order := Values();
      out := Reply(OK, Records(items));
    }

    /** `get_todo`: the record under `id`, or 404; in a valid store the record found has that id. */
    method Get(id: nat) returns (out: Outcome)
      ensures Performs(db, GetTodo(id), out, db)
      ensures Valid() && out.Reply? && out.body.Record? ==> out.body.todo.id == id
    {
      if id in db {
        out := Reply(OK, Record(db[id]));
      } else {
        out := Reply(NOT_FOUND, Message(TODO_NOT_FOUND));
      }
    }

    /** `create_todo`: stores a new, uncompleted record under id `len + 1`. */
    method Create(title: string) returns (out: Outcome)
      requires Valid()
      modifies this
      ensures Performs(old(db), CreateTodo(title), out, db)
      ensures Valid()
    {
      var id := |db| + 1;
      var todo := Todo(id, title, false);
      db := db[id := todo];
      out := Reply(CREATED, Record(todo));
    }

    /** `update_todo`: overwrites the supplied fields of the record under `id`, which keeps its id, or 404. */
    method Update(id: nat, title: Option<string>, completed: Option<bool>) returns (out: Outcome)
      requires Valid()
      modifies this
      ensures Performs(old(db), UpdateTodo(id, title, completed), out, db)
      ensures Valid()
      ensures out.Reply? && out.body.Record? ==> out.body.todo.id == id
    {
      if id in db {
        var todo := db[id];
        if title.Some? {
          todo := todo.(title := title.value);
        }
        if completed.Some? {
          todo := todo.(completed := completed.value);
        }
        db := db[id := todo];
        out := Reply(OK, Record(todo));
      } else {
        out := Reply(NOT_FOUND, Message(TODO_NOT_FOUND));
      }
    }

    /** `delete_todo`: removes the record under `id`, or 404. */
    method Delete(id: nat) returns (out: Outcome)
      requires Valid()
      modifies this
      ensures Performs(old(db), DeleteTodo(id), out, db)
      ensures Valid()
    {
      if id in db {
        db := db - {id};
        out := Reply(OK, Message(TODO_DELETED));
      } else {
        out := Reply(NOT_FOUND, Message(TODO_NOT_FOUND));
      }
    }
  }

  // ---------------------------------------------------------------- properties

  /** Every store operation replies (none panics), and the only id it can add is the next one. */
  lemma PerformsReplies(db: Db, op: Op, out: Outcome, db': Db)
    requires Performs(db, op, out, db')
    ensures out.Reply?
    ensures db'.Keys <= db.Keys + {|db| + 1}
  {
  }

  /** A listing has one item per stored record, and lists exactly the stored records. */
  lemma ListingSize(items: seq<Todo>, db: Db)
    requires IsListing(items, db)
    ensures |items| == |db|
    ensures forall t :: t in items <==> t in db.Values
  {
    var order :| Enumerates(order, items, db);
    DistinctKeys(order, db);
    ListingValues(order, items, db);
  }

  lemma ListingValues(order: seq<nat>, items: seq<Todo>, db: Db)
    requires Enumerates(order, items, db)
    ensures forall t :: t in items <==> t in db.Values
  {
    forall t | t in db.Values ensures t in items {
      var k :| k in db && db[k] == t;
      var i :| 0 <= i < |order| && order[i] == k;
      assert items[i] == t;
    }
    forall t | t in items ensures t in db.Values {
      var i :| 0 <= i < |items| && items[i] == t;
      assert db[order[i]] == t;
    }
  }

  /** Distinct keys that cover the map number as many as the map's entries. */
  lemma {:induction false} DistinctKeys(order: seq<nat>, db: Db)
    requires forall i :: 0 <= i < |order| ==> order[i] in db
    requires forall i, j :: 0 <= i < j < |order| ==> order[i] != order[j]
    requires forall k :: k in db ==> k in order
    ensures |order| == |db|
  {
    if order == [] {
      assert db.Keys == {};
    } else {
      var k := order[0];
      var rest := db - {k};
      forall k' | k' in rest ensures k' in order[1..] {
        var i :| 0 <= i < |order| && order[i] == k';
        assert i != 0;
      }
      forall i | 0 <= i < |order[1..]| ensures order[1..][i] in rest {
        assert order[1..][i] == order[i + 1] != order[0];
      }
      DistinctKeys(order[1..], rest);
      assert db.Keys == rest.Keys + {k};
    }
  }

  /**
   * `create_todo` picks id `len + 1` and overwrites whatever is stored there:
   * the store grows by one record exactly when that id is free.
   */
  lemma CreateGrowsIff(db: Db, title: string, out: Outcome, db': Db)
    requires Performs(db, CreateTodo(title), out, db')
    ensures |db| + 1 in db' && db'[|db| + 1] == Todo(|db| + 1, title, false)
    ensures forall k :: k in db' ==> k in db || k == |db| + 1
    ensures forall k :: k in db && k != |db| + 1 ==> k in db' && db'[k] == db[k]
    ensures |db'| == |db| + 1 <==> |db| + 1 !in db
  {
    var k := |db| + 1;
    assert db'.Keys == db.Keys + {k};
    if k in db {
      assert db.Keys + {k} == db.Keys;
    }
  }

  /** While the ids in use are exactly 1..n, creating adds record n + 1 and keeps that shape. */
  lemma CreateOnDenseIds(db: Db, title: string, out: Outcome, db': Db)
    requires forall k :: k in db <==> 1 <= k <= |db|
    requires Performs(db, CreateTodo(title), out, db')
    ensures |db'| == |db| + 1
    ensures forall k :: k in db' <==> 1 <= k <= |db'|
  {
    CreateGrowsIff(db, title, out, db');
  }

  /**
   * Deleting a record other than the newest and then creating one reuses the
   * newest record's id, so the new record replaces it: from records 1, 2 and
   * 3, deleting 2 and creating leaves records 1 and 3, record 3 being the new one.
   */
  lemma IdReuseAfterDelete(out1: Outcome, db1: Db, out2: Outcome, db2: Db)
    requires Performs(map[1 := Todo(1, "a", false), 2 := Todo(2, "b", false), 3 := Todo(3, "c", true)],
                      DeleteTodo(2), out1, db1)
    requires Performs(db1, CreateTodo("d"), out2, db2)
    ensures out2 == Reply(CREATED, Record(Todo(3, "d", false)))
    ensures db2 == map[1 := Todo(1, "a", false), 3 := Todo(3, "d", false)]
  {
    var db0 := map[1 := Todo(1, "a", false), 2 := Todo(2, "b", false), 3 := Todo(3, "c", true)];
    assert db1.Keys == {1, 3};
    assert |db1| == 2;
  }

  /** A record read right after it was created is the created record. */
  lemma GetAfterCreate(db: Db, title: string, out1: Outcome, db1: Db, out2: Outcome, db2: Db)
    requires Performs(db, CreateTodo(title), out1, db1)
    requires Performs(db1, GetTodo(|db| + 1), out2, db2)
    ensures out1.Reply? && out1.body.Record?
    ensures out2 == Reply(OK, out1.body)
    ensures db2 == db1
  {
  }

  /** A deleted id is gone: reading, updating or deleting it again answers 404. */
  lemma AfterDelete(db: Db, id: nat, op: Op, out1: Outcome, db1: Db, out2: Outcome, db2: Db)
    requires Performs(db, DeleteTodo(id), out1, db1)
    requires op == GetTodo(id) || (op.UpdateTodo? && op.id == id) || op == DeleteTodo(id)
    requires Performs(db1, op, out2, db2)
    ensures out2 == Reply(NOT_FOUND, Message(TODO_NOT_FOUND)) && db2 == db1
  {
  }

  /** Repeating an update changes nothing more: updates are idempotent. */
  lemma UpdateIdempotent(db: Db, id: nat, title: Option<string>, completed: Option<bool>,
                         out1: Outcome, db1: Db, out2: Outcome, db2: Db)
    requires Performs(db, UpdateTodo(id, title, completed), out1, db1)
    requires Performs(db1, UpdateTodo(id, title, completed), out2, db2)
    ensures db2 == db1
    ensures out2 == out1
  {
    if id in db {
      var t := Patch(db[id], title, completed);
      assert Patch(t, title, completed) == t;
    }
  }

  /** An update touches one existing record, keeps its id and never adds a record. */
  lemma UpdateFrame(db: Db, id: nat, title: Option<string>, completed: Option<bool>, out: Outcome, db': Db)
    requires Performs(db, UpdateTodo(id, title, completed), out, db')
    ensures db'.Keys == db.Keys
    ensures forall k :: k in db && k != id ==> db'[k] == db[k]
    ensures id in db ==>
      && db'[id].id == db[id].id
      && db'[id].title == (if title.Some? then title.value else db[id].title)
      && db'[id].completed == (if completed.Some? then completed.value else db[id].completed)
  {
  }
}
