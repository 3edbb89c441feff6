/** The in-memory todo list: a package-level slice and the next id.

    Requests are modelled one at a time; each handler takes the slice and
    counter and returns them updated together with its reply. */
module MemoryTodos {
  import opened Wrappers
  import opened Seqs
  import opened Http
  import Decimal

  datatype Todo = Todo(id: int, text: string)

  /** `todos` and `nextID`. */
  datatype Todos = Todos(todos: seq<Todo>, nextId: int)

  /** The package's initial state. */
  const Initial: Todos := Todos([], 1)

  function TodoId(t: Todo): int {
    t.id
  }

  function TodoIdIs(id: int): Todo -> bool {
    (t: Todo) => t.id == id
  }

  /** Ids increase along the slice and lie below the next id, so no two
      todos share an id. */
  ghost predicate Inv(s: Todos) {
    Increasing(s.todos, TodoId) && KeysBelow(s.todos, TodoId, s.nextId)
  }

  /** GET /todos: the whole slice. */
  function GetTodos(s: Todos): (r: Response<seq<Todo>>)
    ensures r.Reply? && r.code == StatusOK
    ensures forall t :: t in r.body <==> t in s.todos
    ensures r.body == s.todos
  {
    Reply(StatusOK, s.todos)
  }

  /** POST /todos. Any decodable body is accepted; the id it carries is
      replaced by the next id. */
  function CreateTodo(s: Todos, body: Option<Todo>): (r: Step<Todos, Todo>)
    ensures body.None? ==> r == Step(s, Failure(StatusBadRequest, "Invalid request body"))
    ensures body.Some? ==>
              r.out == Reply(StatusCreated, Todo(s.nextId, body.value.text))
              && r.state == Todos(s.todos + [r.out.body], s.nextId + 1)
  {
    match body
    case None => Step(s, Failure(StatusBadRequest, "Invalid request body"))
    case Some(t) =>
      var created := t.(id := s.nextId);
      Step(Todos(s.todos + [created], s.nextId + 1), Reply(StatusCreated, created))
  }

  /** PUT /todos/{id}: the first todo with the id is replaced by the body,
      which keeps that id. */
  function UpdateTodo(s: Todos, idParam: string, body: Option<Todo>): (r: Step<Todos, Todo>)
    ensures Decimal.Atoi(idParam).None? ==> r == Step(s, Failure(StatusBadRequest, "Invalid ID format"))
    ensures Decimal.Atoi(idParam).Some? && body.None? ==> r == Step(s, Failure(StatusBadRequest, "Invalid request body"))
    ensures r.out.Status() == StatusOK <==>
              Decimal.Atoi(idParam).Some? && body.Some? && exists t :: t in s.todos && t.id == Decimal.Atoi(idParam).value
    ensures Decimal.Atoi(idParam).Some? && body.Some? && r.out.Status() != StatusOK ==>
              r == Step(s, Failure(StatusNotFound, "Todo not found"))
    ensures r.out.Status() == StatusOK ==>
              r.out == Reply(StatusOK, Todo(Decimal.Atoi(idParam).value, body.value.text))
              && r.state.nextId == s.nextId
              && exists i :: 0 <= i < |s.todos| && s.todos[i].id == Decimal.Atoi(idParam).value
                             && (forall j :: 0 <= j < i ==> s.todos[j].id != Decimal.Atoi(idParam).value)
                             && r.state.todos == s.todos[i := r.out.body]
    ensures r.out.Status() != StatusOK ==> r.state == s
  {
    match Decimal.Atoi(idParam)
    case None => Step(s, Failure(StatusBadRequest, "Invalid ID format"))
    case Some(id) =>
      match body
      case None => Step(s, Failure(StatusBadRequest, "Invalid request body"))
      case Some(t) =>
        match IndexOf(s.todos, TodoIdIs(id))
        case None =>
          Step(s, Failure(StatusNotFound, "Todo not found"))
        case Some(i) =>
          assert s.todos[i] in s.todos;
          assert forall j :: 0 <= j < i ==> s.todos[j].id != id by {
            forall j | 0 <= j < i ensures s.todos[j].id != id {
              assert !TodoIdIs(id)(s.todos[j]);
            }
          }
          var updated := t.(id := id);
          Step(s.(todos := s.todos[i := updated]), Reply(StatusOK, updated))
  }

  /** DELETE /todos/{id}: the first todo with the id is removed. */
  function DeleteTodo(s: Todos, idParam: string): (r: Step<Todos, ()>)
    ensures Decimal.Atoi(idParam).None? ==> r == Step(s, Failure(StatusBadRequest, "Invalid ID format"))
    ensures r.out.Status() == StatusNoContent <==>
              Decimal.Atoi(idParam).Some? && exists t :: t in s.todos && t.id == Decimal.Atoi(idParam).value
    ensures Decimal.Atoi(idParam).Some? && r.out.Status() != StatusNoContent ==>
              r == Step(s, Failure(StatusNotFound, "Todo not found"))
    ensures r.out.Status() == StatusNoContent ==>
              r.out == NoContent && r.state.nextId == s.nextId
              && exists i :: 0 <= i < |s.todos| && s.todos[i].id == Decimal.Atoi(idParam).value
                             && (forall j :: 0 <= j < i ==> s.todos[j].id != Decimal.Atoi(idParam).value)
                             && r.state.todos == RemoveAt(s.todos, i)
  {
    match Decimal.Atoi(idParam)
    case None => Step(s, Failure(StatusBadRequest, "Invalid ID format"))
    case Some(id) =>
      match IndexOf(s.todos, TodoIdIs(id))
      case None =>
        Step(s, Failure(StatusNotFound, "Todo not found"))
      case Some(i) =>
        assert s.todos[i] in s.todos;
        assert forall j :: 0 <= j < i ==> s.todos[j].id != id by {
          forall j | 0 <= j < i ensures s.todos[j].id != id {
            assert !TodoIdIs(id)(s.todos[j]);
          }
        }
        Step(s.(todos := RemoveAt(s.todos, i)), NoContent)
  }

  lemma InitialInv()
    ensures Inv(Initial)
  {
  }

  lemma CreateTodoInv(s: Todos, body: Option<Todo>)
    requires Inv(s)
    ensures Inv(CreateTodo(s, body).state)
  {
    if body.Some? {
      SnocIncreasing(s.todos, Todo(s.nextId, body.value.text), TodoId);
    }
  }

  lemma UpdateTodoInv(s: Todos, idParam: string, body: Option<Todo>)
    requires Inv(s)
    ensures Inv(UpdateTodo(s, idParam, body).state)
  {
    var r := UpdateTodo(s, idParam, body);
    if r.out.Status() == StatusOK {
      var i :| 0 <= i < |s.todos| && s.todos[i].id == Decimal.Atoi(idParam).value
               && r.state.todos == s.todos[i := r.out.body];
      ReplaceIncreasing(s.todos, i, r.out.body, TodoId);
      ReplaceKeysBelow(s.todos, i, r.out.body, TodoId, s.nextId);
    }
  }

  lemma DeleteTodoInv(s: Todos, idParam: string)
    requires Inv(s)
    ensures Inv(DeleteTodo(s, idParam).state)
  {
    var r := DeleteTodo(s, idParam);
    if r.out.Status() == StatusNoContent {
      var i :| 0 <= i < |s.todos| && r.state.todos == RemoveAt(s.todos, i);
      RemoveAtIncreasing(s.todos, i, TodoId);
    }
  }

  /** Because ids are distinct, a deleted id is gone from the list and
      every other todo is still there. */
  lemma DeleteTodoRemovesExactly(s: Todos, idParam: string)
    requires Inv(s)
    requires DeleteTodo(s, idParam).out.Status() == StatusNoContent
    ensures forall t :: t in DeleteTodo(s, idParam).state.todos <==> t in s.todos && t.id != Decimal.Atoi(idParam).value
  {
    var r := DeleteTodo(s, idParam);
    var i :| 0 <= i < |s.todos| && s.todos[i].id == Decimal.Atoi(idParam).value && r.state.todos == RemoveAt(s.todos, i);
    RemoveAtKey(s.todos, i, TodoId);
  }

  /** A created todo is listed last, after every todo listed before. */
  lemma CreateThenListed(s: Todos, body: Option<Todo>)
    requires body.Some?
    ensures GetTodos(CreateTodo(s, body).state).body == GetTodos(s).body + [Todo(s.nextId, body.value.text)]
  {
  }
}
