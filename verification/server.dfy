/**
 The four `/api/todos` route handlers, each a pure function from the store and
 the request to the new store and the HTTP response. Every call into the
 database driver may throw (connection lost, timeout); the `Backend` argument
 says whether it does. A path id that is not a well-formed ObjectId makes the
 driver throw a cast error before the collection is touched.
 */
module Server {
  import opened Common
  import opened Todos
  import PageQuery

  /** `limit` of the list route: the number of documents on one page. */
  const PageSize: nat := 10

  const CreateFailed: string := "Error creating todo"
  const FetchFailed: string := "Error fetching todos"
  const UpdateFailed: string := "Error updating todo"
  const DeleteFailed: string := "Error deleting todo"
  const NotFound: string := "Todo not found"
  const Deleted: string := "Todo deleted successfully"

  /** A required schema path. */
  datatype Field = TitleField | DescriptionField

  /** What the `error` member of a failure body reports. */
  datatype Cause = ValidationFailed(missing: set<Field>) | CastFailed | StoreFailed

  datatype Body =
    | Document(todo: Todo)
    | Documents(todos: seq<Todo>)
    | Notice(message: string)
    | Failure(message: string, cause: Cause)

  datatype Response = Response(status: nat, body: Body)

  /** The store after the request, and what was sent back. */
  datatype Reply = Reply(store: Store, response: Response)

  /** Whether the driver call of this request completes or throws. */
  datatype Backend = Reachable | Unreachable

  /** The `:id` path parameter: a well-formed ObjectId, or a string that does not cast to one. */
  datatype IdParam = ObjectId(id: Id) | Malformed

  /** Mongoose's `required` check on a String path: present and not the empty string. */
  predicate Supplied(v: Option<string>) {
    v.Some? && |v.value| > 0
  }

  function MissingFields(title: Option<string>, description: Option<string>): (r: set<Field>)
    ensures TitleField in r <==> !Supplied(title)
    ensures DescriptionField in r <==> !Supplied(description)
  {
    (if Supplied(title) then {} else {TitleField})
      + (if Supplied(description) then {} else {DescriptionField})
  }

  /** `POST /api/todos`: validate, then insert one document stamped with `now`. */
  function Create(s: Store, title: Option<string>, description: Option<string>, now: int,
                  backend: Backend): (r: Reply)
    ensures r.response.status == 201 <==>
              Supplied(title) && Supplied(description) && backend.Reachable?
    ensures r.response.status != 201 ==>
              && r.store == s
              && r.response.status == 400
              && r.response.body.Failure?
              && r.response.body.message == CreateFailed
    ensures !(Supplied(title) && Supplied(description)) ==>
              r.response.body.Failure? && r.response.body.cause.ValidationFailed?
              && r.response.body.cause.missing != {}
              && (TitleField in r.response.body.cause.missing <==> !Supplied(title))
              && (DescriptionField in r.response.body.cause.missing <==> !Supplied(description))
    ensures r.response.status == 201 ==>
              && r.response.body.Document?
              && r.store.todos == s.todos + [r.response.body.todo]
              && r.response.body.todo.title == title.value
              && r.response.body.todo.description == description.value
              && r.response.body.todo.date == now
              && r.response.body.todo.id == s.nextId < r.store.nextId
  {
    var missing := MissingFields(title, description);
    if missing != {} then
      Reply(s, Response(400, Failure(CreateFailed, ValidationFailed(missing))))
    else if backend.Unreachable? then
      Reply(s, Response(400, Failure(CreateFailed, StoreFailed)))
    else
      var t := Todo(s.nextId, title.value, description.value, now);
      Reply(Store(s.todos + [t], s.nextId + 1), Response(201, Document(t)))
  }

  /** Number of documents skipped for a page number: `(page - 1) * limit`. */
  function Offset(page: int): int {
    (page - 1) * PageSize
  }

  /**
   What `find().skip(skip).limit(PageSize)` yields: the documents at positions
   `skip`, `skip + 1`, … in natural order, as many as exist up to the limit.
   */
  predicate IsWindow(all: seq<Todo>, skip: nat, w: seq<Todo>) {
    && |w| <= PageSize
    && (forall k :: 0 <= k < |w| ==> skip + k < |all| && w[k] == all[skip + k])
    && (|w| == PageSize || skip + |w| >= |all|)
  }

  /** `find().skip(skip).limit(PageSize)` over the collection in natural order. */
  function Window(all: seq<Todo>, skip: nat): (w: seq<Todo>)
    ensures IsWindow(all, skip, w)
  {
    if skip >= |all| then []
    else all[skip..if skip + PageSize <= |all| then skip + PageSize else |all|]
  }

  /**
   The list query for an already parsed page number. A page below 1 (a
   negative `parseInt` result) gives a negative skip, which the database
   rejects; the handler answers 500.
   */
  function ListPage(s: Store, p: int, backend: Backend): (r: Reply)
    ensures r.store == s
    ensures r.response.status == 200 <==> backend.Reachable? && p >= 1
    ensures r.response.status != 200 ==> r.response == Response(500, Notice(FetchFailed))
    ensures r.response.status == 200 ==>
              r.response.body.Documents? && IsWindow(s.todos, Offset(p), r.response.body.todos)
  {
    if backend.Unreachable? || p < 1 then
      Reply(s, Response(500, Notice(FetchFailed)))
    else
      Reply(s, Response(200, Documents(Window(s.todos, Offset(p)))))
  }

  /**
   `GET /api/todos?page=…`: parse the page number, then query that page. An
   absent or unreadable page lists the first ten documents; a negative one fails.
   */
  function List(s: Store, page: Option<string>, backend: Backend): (r: Reply)
    ensures r.store == s
    ensures r.response.status == 200 <==>
              && backend.Reachable?
              && (page.None? || PageQuery.ParseInt(page.value).None? || PageQuery.ParseInt(page.value).value >= 0)
    ensures r.response.status != 200 ==> r.response == Response(500, Notice(FetchFailed))
    ensures r.response.status == 200 ==>
              && r.response.body.Documents?
              && IsWindow(s.todos, Offset(PageQuery.PageNumber(page)), r.response.body.todos)
    ensures backend.Reachable? && (page.None? || PageQuery.ParseInt(page.value).None?) ==>
              r.response.body.Documents? && IsWindow(s.todos, 0, r.response.body.todos)
  {
    ListPage(s, PageQuery.PageNumber(page), backend)
  }

  /**
   `PUT /api/todos/:id`: `findByIdAndUpdate(id, {title, description}, {new: true})`.
   A field absent from the body is `undefined` and is dropped from the update;
   a present field overwrites the stored one. Update validators do not run, so
   an empty string is stored as given.
   */
  function Update(s: Store, id: IdParam, title: Option<string>, description: Option<string>,
                  backend: Backend): (r: Reply)
    ensures id.Malformed? ==> r == Reply(s, Response(400, Failure(UpdateFailed, CastFailed)))
    ensures id.ObjectId? && backend.Unreachable? ==>
              r == Reply(s, Response(400, Failure(UpdateFailed, StoreFailed)))
    ensures id.ObjectId? && backend.Reachable? && !HasId(s.todos, id.id) ==>
              r == Reply(s, Response(404, Notice(NotFound)))
    ensures id.ObjectId? && backend.Reachable? && HasId(s.todos, id.id) ==>
              var k := IndexOf(s.todos, id.id).value;
              && r.response.status == 200
              && r.response.body.Document?
              && r.store.nextId == s.nextId
              && |r.store.todos| == |s.todos|
              && r.store.todos[k] == r.response.body.todo
              && (forall j :: 0 <= j < |s.todos| && j != k ==> r.store.todos[j] == s.todos[j])
              && r.response.body.todo.id == id.id
              && r.response.body.todo.date == s.todos[k].date
              && r.response.body.todo.title == (if title.Some? then title.value else s.todos[k].title)
              && r.response.body.todo.description ==
                   (if description.Some? then description.value else s.todos[k].description)
  {
    if id.Malformed? then
      Reply(s, Response(400, Failure(UpdateFailed, CastFailed)))
    else if backend.Unreachable? then
      Reply(s, Response(400, Failure(UpdateFailed, StoreFailed)))
    else
      match IndexOf(s.todos, id.id)
      case None => Reply(s, Response(404, Notice(NotFound)))
      case Some(k) =>
        var current := s.todos[k];
        var updated := current.(title := if title.Some? then title.value else current.title,
                                description := if description.Some? then description.value
                                               else current.description);
        Reply(s.(todos := s.todos[k := updated]), Response(200, Document(updated)))
  }

  /** `DELETE /api/todos/:id`: `findByIdAndDelete(id)`, answering with a confirmation only. */
  function Delete(s: Store, id: IdParam, backend: Backend): (r: Reply)
    ensures id.Malformed? || backend.Unreachable? ==>
              r == Reply(s, Response(500, Notice(DeleteFailed)))
    ensures id.ObjectId? && backend.Reachable? && !HasId(s.todos, id.id) ==>
              r == Reply(s, Response(404, Notice(NotFound)))
    ensures id.ObjectId? && backend.Reachable? && HasId(s.todos, id.id) ==>
              && r.response == Response(200, Notice(Deleted))
              && r.store.nextId == s.nextId
              && r.store.todos == RemoveAt(s.todos, IndexOf(s.todos, id.id).value)
  {
    if id.Malformed? || backend.Unreachable? then
      Reply(s, Response(500, Notice(DeleteFailed)))
    else
      match IndexOf(s.todos, id.id)
      case None => Reply(s, Response(404, Notice(NotFound)))
      case Some(k) => Reply(s.(todos := RemoveAt(s.todos, k)), Response(200, Notice(Deleted)))
  }
}
