/**
 The list component and its rows.

 The list enumerates the collection's keys and renders one row per key; a
 row looks its entry up by indexing the collection (which fails when the key
 is absent) and shows the entry's text next to a remove control. The
 enumeration order is the hash map's and is not specified, so the rendering
 below picks keys in an arbitrary order.
 */
module TodoList {
  import opened TodoModel

  /** What one rendered row shows: its key and the entry's text. */
  datatype Row = Row(key: nat, text: string)

  /** A row's lookup of its own entry. Indexing an absent key fails, so the
      key must be present. */
  function RowLookup(todos: Todos, id: nat): (t: TodoItem)
    requires id in todos
    ensures t in todos.Values
    ensures KeysMatchIds(todos) ==> t.id == id
  {
    todos[id]
  }

  /** `rows` renders exactly the entries under `keys`: one row per key,
      no key twice, each row showing its entry's text. */
  ghost predicate RendersKeys(rows: seq<Row>, todos: Todos, keys: set<nat>)
  {
    && |rows| == |keys|
    && (forall i :: 0 <= i < |rows| ==> rows[i].key in keys && rows[i].key in todos && rows[i].text == todos[rows[i].key].contents)
    && (forall k :: k in keys ==> exists i :: 0 <= i < |rows| && rows[i].key == k)
    && (forall i, j :: 0 <= i < j < |rows| ==> rows[i].key != rows[j].key)
  }

  /** Rendering one more, not yet rendered, key extends a rendering. */
  lemma RendersKeysExtend(rows: seq<Row>, todos: Todos, keys: set<nat>, id: nat)
    requires RendersKeys(rows, todos, keys)
    requires id in todos && id !in keys
    ensures RendersKeys(rows + [Row(id, todos[id].contents)], todos, keys + {id})
  {
    var rows' := rows + [Row(id, todos[id].contents)];
    assert forall i :: 0 <= i < |rows| ==> rows'[i] == rows[i];
    assert rows'[|rows|].key == id;
  }

  /** The list's rendering: one row for each key, in an unspecified order,
      each looked up through `RowLookup`. */
  method ListRows(todos: Todos) returns (rows: seq<Row>)
    ensures RendersKeys(rows, todos, todos.Keys)
  {
    var remaining := todos.Keys;
    ghost var listed: set<nat> := {};
    rows := [];
    while remaining != {}
      invariant remaining !! listed
      invariant remaining + listed == todos.Keys
      invariant RendersKeys(rows, todos, listed)
      decreases remaining
    {
      var id :| id in remaining;
      var todo := RowLookup(todos, id);
      RendersKeysExtend(rows, todos, listed, id);
      rows := rows + [Row(id, todo.contents)];
      remaining := remaining - {id};
      listed := listed + {id};
    }
    assert listed == todos.Keys;
  }

  /** The remove control of the row bound to `id`. */
  function OnRemove(s: State, id: nat): (r: State)
    ensures r.todos.Keys == s.todos.Keys - {id}
    ensures forall k :: k in r.todos ==> r.todos[k] == s.todos[k]
    ensures r.todoId == s.todoId && r.newTodoItem == s.newTodoItem
    ensures id !in s.todos ==> r == s
    ensures Valid(s) ==> Valid(r)
  {
    s.(todos := s.todos - {id})
  }

  /** Removing the same id twice is the same as removing it once. */
  lemma RemoveIdempotent(s: State, id: nat)
    ensures OnRemove(OnRemove(s, id), id) == OnRemove(s, id)
  {
  }

  /** Removals of two ids can be done in either order. */
  lemma RemoveCommutes(s: State, a: nat, b: nat)
    ensures OnRemove(OnRemove(s, a), b) == OnRemove(OnRemove(s, b), a)
  {
  }
}
