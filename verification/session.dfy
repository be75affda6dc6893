/**
 The client page: the last fetched list, the selected todo, whether the add
 form is open, and the add form's fields while it is mounted. Every network
 call is one atomic outcome supplied as an argument: a response with a status,
 or a thrown error (network failure, unreadable body). A transition reports the
 requests it sent, in order.
 */
module Session {
  import opened Common
  import opened Todos
  import Modal

  /** What a POST, PUT or DELETE call came back with. */
  datatype Outcome = Responded(status: int) | Threw

  /** What a GET of one page came back with; `data` is the parsed JSON list. */
  datatype Fetched = Received(status: int, data: seq<Todo>) | FetchThrew

  datatype Request = Get(page: int) | Post(draft: Draft) | Put(id: Id, draft: Draft) | Del(id: Id)

  datatype State = State(todos: seq<Todo>, selected: Option<Todo>, modalOpen: bool, form: Modal.Form)

  /** The session after a transition and the requests the transition sent. */
  datatype Step = Step(after: State, sent: seq<Request>)

  /** `response.ok`: a status in the 2xx range. */
  predicate Ok(status: int) {
    200 <= status <= 299
  }

  predicate Accepted(o: Outcome) {
    o.Responded? && Ok(o.status)
  }

  predicate Loaded(f: Fetched) {
    f.Received? && Ok(f.status)
  }

  /** Empty list, nothing selected, form closed. */
  const Initial: State := State([], None, false, Modal.Blank)

  /** The form is unmounted while closed, so a closed session holds a blank form. */
  predicate Consistent(s: State) {
    !s.modalOpen ==> s.form == Modal.Blank
  }

  /** `fetchTodos(page)`: replace the list on success, keep everything on failure. */
  function FetchTodos(s: State, page: int, f: Fetched): (r: Step)
    ensures r.sent == [Get(page)]
    ensures Loaded(f) ==> r.after == s.(todos := f.data)
    ensures !Loaded(f) ==> r.after == s
  {
    var after := if Loaded(f) then s.(todos := f.data) else s;
    Step(after, [Get(page)])
  }

  /** The mount effect: fetch page 1 into the initial session. */
  function Mount(f: Fetched): (r: Step)
    ensures r.sent == [Get(1)]
    ensures r.after.selected.None? && !r.after.modalOpen && r.after.form == Modal.Blank
    ensures r.after.todos == if Loaded(f) then f.data else []
  {
    FetchTodos(Initial, 1, f)
  }

  /** `addTodo(draft)`: POST, and on a 2xx answer re-fetch page 1. */
  function AddTodo(s: State, d: Draft, post: Outcome, refresh: Fetched): (r: Step)
    ensures |r.sent| >= 1 && r.sent[0] == Post(d)
    ensures r.after.selected == s.selected && r.after.modalOpen == s.modalOpen && r.after.form == s.form
    ensures Accepted(post) ==>
              r.sent == [Post(d), Get(1)]
              && r.after.todos == (if Loaded(refresh) then refresh.data else s.todos)
    ensures !Accepted(post) ==> r == Step(s, [Post(d)])
  {
    if Accepted(post) then
      var refreshed := FetchTodos(s, 1, refresh);
      Step(refreshed.after, [Post(d)] + refreshed.sent)
    else
      Step(s, [Post(d)])
  }

  /**
   `updateTodo(id, draft)`: PUT, and on a 2xx answer re-fetch page 1. The
   selected todo is not patched, so it keeps the values it had before.
   */
  function UpdateTodo(s: State, id: Id, d: Draft, put: Outcome, refresh: Fetched): (r: Step)
    ensures |r.sent| >= 1 && r.sent[0] == Put(id, d)
    ensures r.after.selected == s.selected && r.after.modalOpen == s.modalOpen && r.after.form == s.form
    ensures Accepted(put) ==>
              r.sent == [Put(id, d), Get(1)]
              && r.after.todos == (if Loaded(refresh) then refresh.data else s.todos)
    ensures !Accepted(put) ==> r == Step(s, [Put(id, d)])
  {
    if Accepted(put) then
      var refreshed := FetchTodos(s, 1, refresh);
      Step(refreshed.after, [Put(id, d)] + refreshed.sent)
    else
      Step(s, [Put(id, d)])
  }

  /**
   `deleteTodo(id)`: DELETE, and on a 2xx answer re-fetch page 1 and clear the
   selection. The re-fetch swallows its own failures, so the selection is
   cleared whatever the re-fetch returns.
   */
  function DeleteTodo(s: State, id: Id, del: Outcome, refresh: Fetched): (r: Step)
    ensures |r.sent| >= 1 && r.sent[0] == Del(id)
    ensures r.after.modalOpen == s.modalOpen && r.after.form == s.form
    ensures Accepted(del) ==>
              r.sent == [Del(id), Get(1)]
              && r.after.selected.None?
              && r.after.todos == (if Loaded(refresh) then refresh.data else s.todos)
    ensures !Accepted(del) ==> r == Step(s, [Del(id)])
  {
    if Accepted(del) then
      var refreshed := FetchTodos(s, 1, refresh);
      Step(refreshed.after.(selected := None), [Del(id)] + refreshed.sent)
    else
      Step(s, [Del(id)])
  }

  /** A click on a list entry selects it. */
  function SelectTodo(s: State, t: Todo): (r: State)
    ensures r.selected == Some(t)
    ensures r.todos == s.todos && r.modalOpen == s.modalOpen && r.form == s.form
  {
    s.(selected := Some(t))
  }

  /** The TODO button: opening a closed form mounts it blank; an open form stays as it is. */
  function OpenModal(s: State): (r: State)
    ensures r.modalOpen
    ensures r.todos == s.todos && r.selected == s.selected
    ensures r.form == if s.modalOpen then s.form else Modal.Blank
  {
    if s.modalOpen then s else s.(modalOpen := true, form := Modal.Blank)
  }

  /**
   An event on the add form. A submitted draft goes to `addTodo`; a close
   unmounts the form, which forgets its fields.
   */
  function ModalInput(s: State, e: Modal.Event, post: Outcome, refresh: Fetched): (r: Step)
    ensures !s.modalOpen ==> r == Step(s, [])
    ensures s.modalOpen && e.ClickAdd? && Modal.Filled(s.form) ==>
              && |r.sent| >= 1 && r.sent[0] == Post(Draft(s.form.title, s.form.description))
              && (forall k :: 1 <= k < |r.sent| ==> r.sent[k] == Get(1))
              && !r.after.modalOpen
              && r.after.form == Modal.Blank
              && r.after.selected == s.selected
    ensures s.modalOpen && e.ClickAdd? && Modal.Filled(s.form) ==>
              r == AddTodo(s.(modalOpen := false, form := Modal.Blank),
                           Draft(s.form.title, s.form.description), post, refresh)
    ensures s.modalOpen && e.ClickAdd? && !Modal.Filled(s.form) ==> r == Step(s, [])
    ensures s.modalOpen && e.TypeTitle? ==> r == Step(s.(form := s.form.(title := e.text)), [])
    ensures s.modalOpen && e.TypeDescription? ==>
              r == Step(s.(form := s.form.(description := e.text)), [])
    ensures s.modalOpen && e.ClickCancel? ==> r == Step(s.(modalOpen := false, form := Modal.Blank), [])
  {
    match Modal.Handle(s.modalOpen, s.form, e)
    case None => Step(s, [])
    case Some(effect) =>
      var s1 := if effect.closed then s.(modalOpen := false, form := Modal.Blank)
                else s.(form := effect.form);
      if |effect.added| == 0 then Step(s1, [])
      else AddTodo(s1, effect.added[0], post, refresh)
  }

  /** Everything the page can do, with the outcomes of the network calls involved. */
  datatype Action =
    | Refresh(page: int, fetched: Fetched)
    | Add(draft: Draft, post: Outcome, refresh: Fetched)
    | Edit(id: Id, draft: Draft, put: Outcome, refresh: Fetched)
    | Remove(id: Id, del: Outcome, refresh: Fetched)
    | Select(todo: Todo)
    | Open
    | Input(event: Modal.Event, post: Outcome, refresh: Fetched)

  function Apply(s: State, a: Action): Step
  {
    match a
    case Refresh(page, f) => FetchTodos(s, page, f)
    case Add(d, post, refresh) => AddTodo(s, d, post, refresh)
    case Edit(id, d, put, refresh) => UpdateTodo(s, id, d, put, refresh)
    case Remove(id, del, refresh) => DeleteTodo(s, id, del, refresh)
    case Select(t) => Step(SelectTodo(s, t), [])
    case Open => Step(OpenModal(s), [])
    case Input(e, post, refresh) => ModalInput(s, e, post, refresh)
  }

  /** The session after a sequence of actions, and all requests sent on the way. */
  function Run(s: State, actions: seq<Action>): Step
    decreases |actions|
  {
    if |actions| == 0 then Step(s, [])
    else
      var first := Apply(s, actions[0]);
      var rest := Run(first.after, actions[1..]);
      Step(rest.after, first.sent + rest.sent)
  }

  /** Every single action keeps a closed form blank. */
  lemma ApplyKeepsConsistent(s: State, a: Action)
    requires Consistent(s)
    ensures Consistent(Apply(s, a).after)
  {
  }

  /** From the initial session, any sequence of actions keeps a closed form blank. */
  lemma {:induction false} RunKeepsConsistent(s: State, actions: seq<Action>)
    requires Consistent(s)
    ensures Consistent(Run(s, actions).after)
    decreases |actions|
  {
    if |actions| > 0 {
      ApplyKeepsConsistent(s, actions[0]);
      RunKeepsConsistent(Apply(s, actions[0]).after, actions[1..]);
    }
  }

  /** Cancelling a half-filled form and opening it again shows a blank form. */
  lemma CancelThenReopenIsBlank(s: State, post: Outcome, refresh: Fetched)
    requires s.modalOpen
    ensures OpenModal(ModalInput(s, Modal.ClickCancel, post, refresh).after).form == Modal.Blank
  {
  }

  /** Failed network calls never change the session. */
  lemma FailuresChangeNothing(s: State, id: Id, d: Draft, o: Outcome, f: Fetched, page: int)
    requires !Accepted(o) && !Loaded(f)
    ensures FetchTodos(s, page, f).after == s
    ensures AddTodo(s, d, o, f).after == s
    ensures UpdateTodo(s, id, d, o, f).after == s
    ensures DeleteTodo(s, id, o, f).after == s
  {
  }
}
