/**
 The single persisted entity of the application (the Mongoose `Todo` model) and
 the collection that holds it. The collection is modelled as the sequence of
 documents in the store's natural order, which for a collection that only ever
 receives inserts, updates in place and deletes is insertion order.
 */
module Todos {
  import opened Common

  /** Document identifiers are opaque; the store never hands the same one out twice. */
  type Id = nat

  /** A stored document: `_id`, `title`, `description` and `date` (a timestamp). */
  datatype Todo = Todo(id: Id, title: string, description: string, date: int)

  /** The `{title, description}` pair a client sends when creating or updating. */
  datatype Draft = Draft(title: string, description: string)

  /** The collection in natural order, together with the next identifier to hand out. */
  datatype Store = Store(todos: seq<Todo>, nextId: Id)

  /** The collection before anything is inserted. */
  const EmptyStore: Store := Store([], 0)

  predicate UniqueIds(todos: seq<Todo>) {
    forall i, j :: 0 <= i < j < |todos| ==> todos[i].id != todos[j].id
  }

  /** Identifiers are unique and every one of them was handed out before `nextId`. */
  predicate Valid(s: Store) {
    && UniqueIds(s.todos)
    && forall i :: 0 <= i < |s.todos| ==> s.todos[i].id < s.nextId
  }

  predicate HasId(todos: seq<Todo>, id: Id) {
    exists i :: 0 <= i < |todos| && todos[i].id == id
  }

  /** Position of the first document whose identifier is `id`, if there is one. */
  function IndexOf(todos: seq<Todo>, id: Id): (r: Option<nat>)
    ensures r.Some? ==> r.value < |todos| && todos[r.value].id == id
    ensures r.Some? ==> forall j :: 0 <= j < r.value ==> todos[j].id != id
    ensures r.None? <==> !HasId(todos, id)
  {
    if |todos| == 0 then None
    else if todos[0].id == id then Some(0)
    else
      match IndexOf(todos[1..], id)
      case None => None
      case Some(k) => Some(k + 1)
  }

  /** The sequence with the element at position `i` taken out, the others kept in order. */
  function RemoveAt(todos: seq<Todo>, i: nat): (r: seq<Todo>)
    requires i < |todos|
    ensures |r| == |todos| - 1
    ensures forall j :: 0 <= j < i ==> r[j] == todos[j]
    ensures forall j :: i <= j < |r| ==> r[j] == todos[j + 1]
  {
    todos[..i] + todos[i + 1..]
  }

  /** Taking one document out of a valid store leaves no document with its identifier. */
  lemma RemoveAtDropsId(s: Store, i: nat)
    requires Valid(s) && i < |s.todos|
    ensures !HasId(RemoveAt(s.todos, i), s.todos[i].id)
    ensures Valid(Store(RemoveAt(s.todos, i), s.nextId))
  {
    var r := RemoveAt(s.todos, i);
    forall j | 0 <= j < |r|
      ensures r[j].id != s.todos[i].id
    {
      if j < i {
        assert r[j] == s.todos[j];
      } else {
        assert r[j] == s.todos[j + 1];
      }
    }
  }
}
