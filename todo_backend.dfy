/**
 The backend's store object: the record table, the creation-order index and
 the ID counter as fields that the three updating calls change in place. Each
 method is proved to leave the fields as the matching function of module
 TodoSpec says and to keep the store invariant; the read-only calls are the
 functions `TodoSpec.GetTodo` and `TodoSpec.GetTodos` applied to `State()`.
 */
module TodoBackend {
  import opened TodoSpec
  import TodoProperties

  /** Index of the first `x` in `s`, searched front to back (Rust's
      `iter().position`). */
  method Position(s: seq<nat>, x: nat) returns (pos: Option<nat>)
    ensures pos == IndexFrom(s, x, 0)
  {
    var i := 0;
    while i < |s|
      invariant 0 <= i <= |s|
      invariant IndexFrom(s, x, i) == IndexFrom(s, x, 0)
    {
      if s[i] == x {
        return Some(i);
      }
      i := i + 1;
    }
    return None;
  }

  class TodoStore {
    var table: map<nat, Todo>
    var order: seq<nat>
    var nextId: nat

    /** The three fields as one value. */
    function State(): Store
      reads this
    {
      Store(table, order, nextId)
    }

    ghost predicate Valid()
      reads this
    {
      TodoSpec.Valid(State())
    }

    /** The state at process start: no records, counter at zero. */
    constructor ()
      ensures State() == Empty() && Valid()
    {
      table := map[];
      order := [];
      nextId := 0;
    }

    /** create_todo: takes the counter's value as the new ID and bumps the
        counter, stores an incomplete record under the ID and appends the ID
        to the order. */
    method CreateTodo(name: string, description: string) returns (r: Result<nat>)
      modifies this
      ensures Step(State(), r) == TodoSpec.CreateTodo(old(State()), name, description)
      ensures r == Ok(old(nextId)) && nextId == old(nextId) + 1
      ensures table == old(table)[old(nextId) := Todo(name, description, false)]
      ensures order == old(order) + [old(nextId)]
      ensures old(Valid()) ==> Valid() && old(nextId) !in old(table)
    {
      ghost var before := State();
      var current := nextId;
      nextId := current + 1;
      table := table[current := Todo(name, description, false)];
      order := order + [current];
      r := Ok(current);
      if TodoSpec.Valid(before) {
        TodoProperties.CreateTodoSpec(before, name, description);
      }
    }

    /** update_todo: fails unless the ID is in the order; otherwise overwrites
        the given fields of its record, failing if the table lacks it. */
    method UpdateTodo(id: nat, name: Option<string>, description: Option<string>,
                      isCompleted: Option<bool>) returns (r: Result<bool>)
      modifies this
      ensures Step(State(), r) == TodoSpec.UpdateTodo(old(State()), id, name, description, isCompleted)
      ensures id !in old(order) ==> r == Err(NotFound) && unchanged(this)
      ensures order == old(order) && nextId == old(nextId)
      ensures old(Valid()) ==> Valid() && r != Err(NotFoundInStore)
    {
      ghost var before := State();
      if TodoSpec.Valid(before) {
        TodoProperties.UpdateTodoSpec(before, id, name, description, isCompleted);
      }
      var listed := id in order;
      if !listed {
        return Err(NotFound);
      }
      if id in table {
        var todo := table[id];
        if name.Some? {
          todo := todo.(name := name.value);
        }
        if description.Some? {
          todo := todo.(description := description.value);
        }
        if isCompleted.Some? {
          todo := todo.(isCompleted := isCompleted.value);
        }
        table := table[id := todo];
        r := Ok(true);
      } else {
        r := Err(NotFoundInStore);
      }
    }

    /** delete_todo: removes the ID from the table; if it was there, finds it
        in the order and removes it there too, replying `false` when the order
        lacked it. */
    method DeleteTodo(id: nat) returns (r: Result<bool>)
      modifies this
      ensures Step(State(), r) == TodoSpec.DeleteTodo(old(State()), id)
      ensures id !in old(table) ==> r == Err(NotFound) && unchanged(this)
      ensures nextId == old(nextId)
      ensures old(Valid()) ==> Valid() && r == (if id in old(table) then Ok(true) else Err(NotFound))
    {
      ghost var before := State();
      if TodoSpec.Valid(before) && id in table {
        TodoProperties.DeleteTodoSpec(before, id);
      }
      if id in table {
        table := table - {id};
        var pos := Position(order, id);
        match pos {
          case Some(p) =>
            order := order[..p] + order[p + 1..];
            r := Ok(true);
          case None =>
            r := Ok(false);
        }
      } else {
        r := Err(NotFound);
      }
    }
  }

  // ---------------------------------------------------------------- clients

  /** Create one record and read it back. */
  method CreateAndGetScenario() {
    var store := new TodoStore();
    var id := store.CreateTodo("Test Todo", "This is a test todo item");
    assert id == Ok(0);
    assert TodoSpec.GetTodo(store.State(), 0) == Ok(Todo("Test Todo", "This is a test todo item", false));
  }

  /** Create one record and overwrite all three fields. */
  method UpdateScenario() {
    var store := new TodoStore();
    var id := store.CreateTodo("Update Test", "This todo will be updated");
    var ok := store.UpdateTodo(id.value, Some("Updated Name"), Some("Updated Description"), Some(true));
    assert ok == Ok(true);
    assert TodoSpec.GetTodo(store.State(), id.value) == Ok(Todo("Updated Name", "Updated Description", true));
  }

  /** Create 25 records and read them in pages of ten. */
  method PaginationScenario() {
    var store := new TodoStore();
    var i := 0;
    while i < 25
      invariant 0 <= i <= 25
      invariant store.Valid() && |store.order| == i
    {
      var _ := store.CreateTodo("Paginated Todo", "Description");
      i := i + 1;
    }
    TodoProperties.TwentyFiveRecordsInPagesOfTen(store.State());
    assert |TodoSpec.GetTodos(store.State(), 3, Some(10)).value| == 5;
  }

  /** Create one record and read it back, delete it, and find it gone from
      table and order. */
  method DeleteScenario() {
    var store := new TodoStore();
    var id := store.CreateTodo("Delete Test", "This todo will be deleted");
    assert TodoSpec.GetTodo(store.State(), id.value) == Ok(Todo("Delete Test", "This todo will be deleted", false));
    var ok := store.DeleteTodo(id.value);
    assert ok == Ok(true);
    assert TodoSpec.GetTodo(store.State(), id.value).Err?;
    assert id.value !in store.order;
  }

  /** Two records: IDs 0 and 1, and a page of one holds the first. */
  method TwoRecordsScenario() {
    var store := new TodoStore();
    var a := store.CreateTodo("A", "a");
    var b := store.CreateTodo("B", "b");
    assert a == Ok(0) && b == Ok(1);
    var st := store.State();
    assert st.order == [0, 1] && st.table[0] == Todo("A", "a", false);
    TodoProperties.GetTodosSpec(st, 1, Some(1));
    var first := TodoSpec.GetTodos(st, 1, Some(1));
    assert first.Ok? && |first.value| == 1 && first.value[0] == Todo("A", "a", false);
    assert first.value == [Todo("A", "a", false)];
  }

  /** Two records; completing the second keeps its text. */
  method CompleteScenario() {
    var store := new TodoStore();
    var _ := store.CreateTodo("A", "a");
    var _ := store.CreateTodo("B", "b");
    var u := store.UpdateTodo(1, None, None, Some(true));
    assert u == Ok(true);
    assert TodoSpec.GetTodo(store.State(), 1) == Ok(Todo("B", "b", true));
  }
}
