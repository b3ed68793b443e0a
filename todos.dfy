/**
 * The todo store: the record every todo is, the list the store holds and the
 * list it starts with.
 */
module Todos {

  /** A todo's id. The application draws it from a random JavaScript number. */
  type TodoId = real

  /** A todo is exactly the triple id, content, completed. */
  datatype Todo = Todo(id: TodoId, content: string, completed: bool)

  /** The store holds one sequence of todos; every list operation maps one to another. */
  type TodoList = seq<Todo>

  /** The store's initial value: no todos. */
  const InitialTodos: TodoList := []

  /** Some todo in the list carries this id. */
  predicate HasId(ts: TodoList, id: TodoId) {
    exists i :: 0 <= i < |ts| && ts[i].id == id
  }

  /**
   * No two todos share an id. The application relies on this to tell its
   * items apart (the id is the rendered key of an item).
   */
  predicate UniqueIds(ts: TodoList) {
    forall i, j :: 0 <= i < j < |ts| ==> ts[i].id != ts[j].id
  }
}
