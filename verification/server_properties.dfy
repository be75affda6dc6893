/**
 Properties that relate several handler calls: the store invariant every
 handler keeps, how pages cover the collection, where a new document shows up,
 and what a repeated delete does.
 */
module ServerProperties {
  import opened Common
  import opened Todos
  import opened Server
  import PageQuery

  /** Creating keeps identifiers unique; the new document's identifier was not in use. */
  lemma CreateKeepsValid(s: Store, title: Option<string>, description: Option<string>, now: int,
                         backend: Backend)
    requires Valid(s)
    ensures Valid(Create(s, title, description, now, backend).store)
    ensures Create(s, title, description, now, backend).response.status == 201 ==>
              !HasId(s.todos, Create(s, title, description, now, backend).response.body.todo.id)
  {
    var r := Create(s, title, description, now, backend);
    if r.response.status == 201 {
      var t := r.response.body.todo;
      var all := r.store.todos;
      assert all == s.todos + [t];
      forall i, j | 0 <= i < j < |all|
        ensures all[i].id != all[j].id
      {
        if j < |s.todos| {
          assert all[i] == s.todos[i] && all[j] == s.todos[j];
        } else {
          assert all[i] == s.todos[i] && all[j] == t;
        }
      }
    }
  }

  /** Updating keeps identifiers unique: the identifier of the updated document is kept. */
  lemma UpdateKeepsValid(s: Store, id: IdParam, title: Option<string>, description: Option<string>,
                         backend: Backend)
    requires Valid(s)
    ensures Valid(Update(s, id, title, description, backend).store)
  {
    var r := Update(s, id, title, description, backend);
    if r.response.status == 200 {
      var k := IndexOf(s.todos, id.id).value;
      assert forall j :: 0 <= j < |s.todos| ==> r.store.todos[j].id == s.todos[j].id;
    }
  }

  /** Deleting keeps the invariant, and afterwards no document carries the deleted identifier. */
  lemma DeleteKeepsValid(s: Store, id: IdParam, backend: Backend)
    requires Valid(s)
    ensures Valid(Delete(s, id, backend).store)
    ensures Delete(s, id, backend).response.status == 200 ==>
              !HasId(Delete(s, id, backend).store.todos, id.id)
  {
    var r := Delete(s, id, backend);
    if r.response.status == 200 {
      RemoveAtDropsId(s, IndexOf(s.todos, id.id).value);
    }
  }

  /** Deleting the same identifier twice: the first call succeeds, the second finds nothing. */
  lemma DeleteTwice(s: Store, id: Id)
    requires Valid(s) && HasId(s.todos, id)
    ensures Delete(s, ObjectId(id), Reachable).response.status == 200
    ensures var after := Delete(s, ObjectId(id), Reachable).store;
            Delete(after, ObjectId(id), Reachable) == Reply(after, Response(404, Notice(NotFound)))
  {
    DeleteKeepsValid(s, ObjectId(id), Reachable);
  }

  /** A page that starts at or beyond the end of the collection is empty, and not an error. */
  lemma PastLastPageIsEmpty(s: Store, p: int)
    requires p >= 1 && Offset(p) >= |s.todos|
    ensures ListPage(s, p, Reachable).response == Response(200, Documents([]))
  {
  }

  /** A position within the limit and within the collection is in the window. */
  lemma WindowAt(all: seq<Todo>, skip: nat, m: nat)
    requires m < PageSize && skip + m < |all|
    ensures m < |Window(all, skip)| && Window(all, skip)[m] == all[skip + m]
  {
  }

  /** Position `i` is `i % 10` places into page `i / 10 + 1`. */
  lemma PageArithmetic(i: nat)
    ensures Offset(i / PageSize + 1) + i % PageSize == i
    ensures i % PageSize < PageSize
  {
    assert Offset(i / PageSize + 1) == (i / 10) * 10;
  }

  /** The document at position `i` is listed at position `i % 10` of page `i / 10 + 1`. */
  lemma {:induction false} PagesCoverStore(s: Store, i: nat)
    requires i < |s.todos|
    ensures var r := ListPage(s, i / PageSize + 1, Reachable).response;
            && r.status == 200
            && i % PageSize < |r.body.todos|
            && r.body.todos[i % PageSize] == s.todos[i]
  {
    PageArithmetic(i);
    WindowAt(s.todos, Offset(i / PageSize + 1), i % PageSize);
  }

  /** The query `?page=n`, the decimal numeral of a positive `n`, lists page `n`. */
  lemma DecimalQueryListsPage(s: Store, n: nat, backend: Backend)
    requires n >= 1
    ensures List(s, Some(PageQuery.Decimal(n)), backend) == ListPage(s, n, backend)
  {
    PageQuery.PageOfDecimal(n);
  }

  /**
   The query `?page=-n` for a positive `n` survives `|| 1` and asks for a
   negative skip: the listing fails with 500 even when the store is reachable.
   */
  lemma NegativeQueryFails(s: Store, n: nat, backend: Backend)
    requires n >= 1
    ensures List(s, Some(['-'] + PageQuery.Decimal(n)), backend) ==
            Reply(s, Response(500, Notice(FetchFailed)))
  {
    PageQuery.PageOfNegativeDecimal(n);
  }

  /** A created document is listed on the page that holds the end of the collection. */
  lemma CreatedIsOnLastPage(s: Store, title: string, description: string, now: int)
    requires |title| > 0 && |description| > 0
    ensures var r := Create(s, Some(title), Some(description), now, Reachable);
            var n := |s.todos|;
            var listed := ListPage(r.store, n / PageSize + 1, Reachable).response;
            && r.response.status == 201
            && listed.status == 200
            && n % PageSize < |listed.body.todos|
            && listed.body.todos[n % PageSize] == r.response.body.todo
            && listed.body.todos[n % PageSize] == Todo(s.nextId, title, description, now)
  {
    var r := Create(s, Some(title), Some(description), now, Reachable);
    PagesCoverStore(r.store, |s.todos|);
  }

  /** With at most ten documents, page 1 is the whole collection. */
  lemma FirstPageHoldsAll(s: Store)
    requires |s.todos| <= PageSize
    ensures ListPage(s, 1, Reachable).response == Response(200, Documents(s.todos))
  {
    var w := ListPage(s, 1, Reachable).response.body.todos;
    assert |w| == |s.todos|;
    assert forall k :: 0 <= k < |w| ==> w[k] == s.todos[k];
  }

  /** With at least ten documents, page 1 is exactly the ten oldest. */
  lemma FirstPageHoldsOldest(s: Store)
    requires |s.todos| >= PageSize
    ensures ListPage(s, 1, Reachable).response == Response(200, Documents(s.todos[..PageSize]))
  {
    var w := ListPage(s, 1, Reachable).response.body.todos;
    assert |w| == PageSize;
    assert forall k :: 0 <= k < PageSize ==> w[k] == s.todos[k];
  }

  /**
   Once the collection holds ten documents, a new one is not on page 1: with no
   sort, page 1 always shows the ten oldest documents.
   */
  lemma CreatedMissingFromFirstPage(s: Store, title: string, description: string, now: int)
    requires Valid(s) && |s.todos| >= PageSize
    requires |title| > 0 && |description| > 0
    ensures var r := Create(s, Some(title), Some(description), now, Reachable);
            var first := ListPage(r.store, 1, Reachable).response;
            && r.response.status == 201
            && first.status == 200
            && r.response.body.todo !in first.body.todos
  {
    var r := Create(s, Some(title), Some(description), now, Reachable);
    FirstPageHoldsOldest(r.store);
    assert r.store.todos[..PageSize] == s.todos[..PageSize];
    assert forall k :: 0 <= k < PageSize ==> s.todos[k].id != s.nextId;
  }

  /**
   The life of a single item in an empty collection: create, list page 1,
   update the description, delete, list page 1 again, delete again.
   */
  lemma Lifecycle(title: string, description: string, revised: string, now: int)
    requires |title| > 0 && |description| > 0
    ensures var created := Create(EmptyStore, Some(title), Some(description), now, Reachable);
            var t := created.response.body.todo;
            var listed := ListPage(created.store, 1, Reachable);
            var updated := Update(created.store, ObjectId(t.id), Some(title), Some(revised), Reachable);
            var deleted := Delete(updated.store, ObjectId(t.id), Reachable);
            var relisted := ListPage(deleted.store, 1, Reachable);
            var again := Delete(deleted.store, ObjectId(t.id), Reachable);
            && created.response.status == 201
            && listed.response == Response(200, Documents([t]))
            && updated.response == Response(200, Document(t.(description := revised)))
            && deleted.response == Response(200, Notice(Deleted))
            && relisted.response == Response(200, Documents([]))
            && again.response == Response(404, Notice(NotFound))
  {
    var created := Create(EmptyStore, Some(title), Some(description), now, Reachable);
    var t := created.response.body.todo;
    assert created.store.todos == [t];
    var listed := ListPage(created.store, 1, Reachable);
    assert |listed.response.body.todos| == 1;
    assert created.store.todos[0].id == t.id;
    var updated := Update(created.store, ObjectId(t.id), Some(title), Some(revised), Reachable);
    assert updated.store.todos == [t.(description := revised)];
    assert updated.store.todos[0].id == t.id;
    var deleted := Delete(updated.store, ObjectId(t.id), Reachable);
    assert deleted.store.todos == [];
    PastLastPageIsEmpty(deleted.store, 1);
  }
}
