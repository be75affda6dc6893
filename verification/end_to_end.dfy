/**
 The client page talking to the API: each network outcome the page sees is the
 response the corresponding handler produced.
 */
module EndToEnd {
  import opened Common
  import opened Todos
  import Server
  import ServerProperties
  import Session
  import Modal
  import PageQuery

  /** What the page sees of a response to a POST, PUT or DELETE: its status. */
  function AsOutcome(response: Server.Response): Session.Outcome {
    Session.Responded(response.status)
  }

  /** What the page sees of a response to a GET: its status and, for a list body, the list. */
  function AsFetched(response: Server.Response): Session.Fetched {
    Session.Received(response.status, if response.body.Documents? then response.body.todos else [])
  }

  /** The page's `response.ok` test accepts exactly the handlers' success answers. */
  lemma OkMeansHandled(s: Store, page: Option<string>, id: Server.IdParam, title: Option<string>,
                       description: Option<string>, now: int, backend: Server.Backend)
    ensures var st := Server.Create(s, title, description, now, backend).response.status;
            Session.Ok(st) <==> st == 201
    ensures var st := Server.List(s, page, backend).response.status;
            Session.Ok(st) <==> st == 200
    ensures var r := Server.Update(s, id, title, description, backend).response;
            Session.Ok(r.status) <==> r.status == 200 && r.body.Document?
    ensures var r := Server.Delete(s, id, backend).response;
            Session.Ok(r.status) <==> r == Server.Response(200, Server.Notice(Server.Deleted))
  {
  }

  /**
   Submitting a filled add form while the collection holds fewer than ten
   documents: the POST is accepted and the page-1 refresh shows the new todo.
   */
  lemma SubmitShowsNewTodo(c: Session.State, s: Store, now: int, query: Option<string>)
    requires PageQuery.PageNumber(query) == 1
    requires c.modalOpen && Modal.Filled(c.form)
    requires |s.todos| < Server.PageSize
    ensures var created := Server.Create(s, Some(c.form.title), Some(c.form.description), now, Server.Reachable);
            var listed := Server.List(created.store, query, Server.Reachable);
            var r := Session.ModalInput(c, Modal.ClickAdd, AsOutcome(created.response), AsFetched(listed.response));
            && created.response.status == 201
            && r.sent == [Session.Post(Draft(c.form.title, c.form.description)), Session.Get(1)]
            && Todo(s.nextId, c.form.title, c.form.description, now) in r.after.todos
            && !r.after.modalOpen
  {
    var created := Server.Create(s, Some(c.form.title), Some(c.form.description), now, Server.Reachable);
    ServerProperties.FirstPageHoldsAll(created.store);
    assert created.store.todos[|s.todos|] == Todo(s.nextId, c.form.title, c.form.description, now);
  }

  /**
   Once the collection holds ten documents, the same submission is accepted
   but the page-1 refresh does not show the new todo, and the page never asks
   for any other page.
   */
  lemma SubmitHidesNewTodo(c: Session.State, s: Store, now: int, query: Option<string>)
    requires PageQuery.PageNumber(query) == 1
    requires c.modalOpen && Modal.Filled(c.form)
    requires Valid(s) && |s.todos| >= Server.PageSize
    ensures var created := Server.Create(s, Some(c.form.title), Some(c.form.description), now, Server.Reachable);
            var listed := Server.List(created.store, query, Server.Reachable);
            var r := Session.ModalInput(c, Modal.ClickAdd, AsOutcome(created.response), AsFetched(listed.response));
            && created.response.status == 201
            && r.sent == [Session.Post(Draft(c.form.title, c.form.description)), Session.Get(1)]
            && created.response.body.todo !in r.after.todos
  {
    ServerProperties.CreatedMissingFromFirstPage(s, c.form.title, c.form.description, now);
  }

  /**
   Deleting the selected todo through the page: the selection is cleared and,
   when the refresh succeeds, the deleted identifier is gone from the list.
   */
  lemma RemoveSelected(c: Session.State, s: Store, t: Todo, backendForList: Server.Backend,
                       query: Option<string>)
    requires PageQuery.PageNumber(query) == 1
    requires Valid(s) && t in s.todos && c.selected == Some(t)
    ensures var deleted := Server.Delete(s, Server.ObjectId(t.id), Server.Reachable);
            var listed := Server.List(deleted.store, query, backendForList);
            var r := Session.DeleteTodo(c, t.id, AsOutcome(deleted.response), AsFetched(listed.response));
            && deleted.response.status == 200
            && r.after.selected.None?
            && (backendForList.Reachable? ==> !HasId(r.after.todos, t.id))
            && (backendForList.Unreachable? ==> r.after.todos == c.todos)
  {
    var i :| 0 <= i < |s.todos| && s.todos[i] == t;
    assert HasId(s.todos, t.id);
    ServerProperties.DeleteKeepsValid(s, Server.ObjectId(t.id), Server.Reachable);
    var deleted := Server.Delete(s, Server.ObjectId(t.id), Server.Reachable);
    var listed := Server.List(deleted.store, query, backendForList);
    assert listed == Server.ListPage(deleted.store, 1, backendForList);
    if backendForList.Reachable? {
      var w := listed.response.body.todos;
      forall k | 0 <= k < |w|
        ensures w[k].id != t.id
      {
        assert w[k] == deleted.store.todos[k];
      }
    }
  }
}
