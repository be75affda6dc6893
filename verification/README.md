# Todo app: a functional model of the API handlers and the client page

This project models the logic of a small task-tracking application in Dafny.

- **The API service.** The Express/Mongoose service has four routes on `/api/todos`. Each route handler is a pure function. It takes an abstract store and the request, and it returns the new store and the HTTP response.
  - The store is the Mongo collection in natural (insertion) order, plus an identifier counter. ObjectIds are never reused, and the counter plays their part.
  - Each handler returns its status code: 201, 200, 400, 404 or 500. It also returns the JSON body it sends.
- **The page query.** The page number is read with `parseInt(page) || 1`. The model implements `parseInt` as JavaScript defines it:
  - leading white space is skipped;
  - an optional sign is read;
  - a `0x`/`0X` prefix switches to hexadecimal;
  - the longest run of digits is read;
  - if there are no digits, the result is NaN.
- **The Sidebar.** The model covers the case-insensitive search filter and the 40-character description preview.
- **The Modal.** The model covers the "Add New Todo" form: its guard, the field reset, and close/cancel.
- **The page.** The client page is a state machine over `{todos, selected, modalOpen, form}`. Every network call is one atomic outcome passed in as an argument. Each transition also reports the requests it sent.
- **End to end.** A last module connects the two sides: the outcomes the page sees are the responses the handlers produced.

Modules, one per source file or concern:

- `Common` (common.dfy): `Option`.
- `Todos` (todos.dfy): the `Todo` document, the `Draft` a client sends, the `Store`, and its validity invariant. Validity means identifiers are unique and each is below the counter.
- `PageQuery` (page_query.dfy): the model of `parseInt(req.query.page) || 1`.
- `Server` (server.dfy): the Create, List, Update and Delete handlers. `List` is `PageQuery.PageNumber` followed by `ListPage`, the skip/limit query for a parsed page number.
- `ServerProperties` (server_properties.dfy): lemmas that involve several handler calls.
- `Sidebar` (sidebar.dfy): the search filter and the preview.
- `Modal` (modal.dfy): the add form.
- `Session` (session.dfy): the client page, `frontend/app/page.js`.
- `EndToEnd` (end_to_end.dfy): the client page working against the handlers.

Behaviour of the code worth knowing, all of it proved below:

- **New todos can be invisible on page 1.** Listing applies no sort, so page 1 always holds the ten oldest documents. A document created while the collection has fewer than ten documents is on page 1; once it holds ten or more, the new document is not.
  - `ServerProperties.CreatedMissingFromFirstPage` proves the second case. `ServerProperties.CreatedIsOnLastPage` shows where the new todo really lands.
  - The client refreshes only page 1 after an add. So once ten todos exist, the new todo does not appear in the list refreshed after the add (`EndToEnd.SubmitHidesNewTodo`).
- **Update does not validate.** Mongoose does not run update validators unless asked. `PUT` therefore stores an empty title or description as given.
- **Update keeps absent fields.** A field missing from the `PUT` body is `undefined`. Mongoose drops undefined keys from an update (Mongoose 6 and later), so the stored value is kept. The only caller, the Content view, always sends both fields.
- **Status codes per route.**
  - `POST` answers 400 for missing fields or a store failure.
  - `PUT` answers 400 for a malformed id or a store failure.
  - `DELETE` answers 500 for a malformed id or a store failure.
  - `GET` answers 500 for a store failure.
  - `GET` with a negative page, such as `?page=-2`, also answers 500, because MongoDB rejects a negative skip.

## Model

| member | source | states |
|---|---|---|
| Todos.IndexOf | backend/server.js:77 | the lookup by id finds the first document with that id, and finds nothing exactly when no document has it |
| Todos.RemoveAtDropsId | backend/server.js:94 | removing one document from a valid store leaves no document with its id, and the store stays valid |
| PageQuery.TrimStart | backend/server.js:58 | `parseInt` starts reading after the leading white space: what it skips is all white space and what remains does not start with white space |
| PageQuery.PageNumber | backend/server.js:58 | the page is never 0; an absent, non-numeric or zero value gives 1; any nonzero number `parseInt` reads is the page, and nothing else is |
| PageQuery.ParseNeedsDecimalDigit | backend/server.js:58 | `parseInt` yields a number only if the text holds a decimal digit, even in hexadecimal, whose `0x` starts with one |
| PageQuery.DecimalMagnitude | backend/server.js:58 | a run of decimal digits is read whole, in base 10 |
| PageQuery.ParseUnsigned | backend/server.js:58 | text that starts with a decimal digit is read with no sign and no white space skipped |
| PageQuery.ParseMinus | backend/server.js:58 | a leading minus sign negates the number read after it |
| PageQuery.Decimal | frontend/app/page.js:24 | the page number the client writes into `?page=` is a non-empty string of decimal digits |
| PageQuery.ParseDecimal | backend/server.js:58 | `parseInt` of the decimal numeral of n is n |
| PageQuery.PageOfDecimal | backend/server.js:58 | a positive page number written in decimal is read back unchanged |
| PageQuery.NonNumericIsFirstPage | backend/server.js:58 | a query with no decimal digit anywhere parses to NaN and falls back to page 1 |
| PageQuery.DecimalValue | backend/server.js:58 | the digits of a decimal numeral denote the number again |
| PageQuery.ParseNegativeDecimal | backend/server.js:58 | `parseInt` of a minus sign followed by the decimal numeral of n is -n |
| PageQuery.PageOfNegativeDecimal | backend/server.js:58 | `|| 1` lets a negative page through: `?page=-n` reads as page -n |
| Server.MissingFields | backend/server.js:31-33 | a required path is reported missing exactly when it is absent or the empty string |
| Server.Create | backend/server.js:41-54 | 201 exactly when both fields are supplied and the store is reachable; the reply carries one appended document with the given fields, a fresh id and the date `now`; otherwise 400 with the error message, the missing fields, and the store unchanged |
| Server.Window | backend/server.js:61-63 | `skip(n).limit(10)` yields at most 10 documents, the ones at positions n, n+1, … in natural order, and as many as exist |
| Server.ListPage | backend/server.js:59-68 | the store is unchanged; 200 exactly when the store is reachable and the page is at least 1; the body is the window starting at `(page-1)*10`; otherwise 500 with the message |
| Server.List | backend/server.js:57-68 | the store is unchanged; 200 exactly when the store is reachable and the page is absent, unreadable or reads as a number that is not negative; the body is the window at the parsed page's offset, the first ten documents for an absent or unreadable page; otherwise 500 with the message |
| Server.Update | backend/server.js:72-87 | malformed id or store failure gives 400 and no change; an unknown id gives 404 and no change (no upsert); a known id has its supplied fields replaced while id and date are kept, every other document is unchanged, and the updated document is returned |
| Server.Delete | backend/server.js:90-103 | malformed id or store failure gives 500 and no change; an unknown id gives 404 and no change; a known id has exactly its document removed, the others keep their order, and the reply is the confirmation message |
| ServerProperties.CreateKeepsValid | backend/server.js:44-49 | create keeps ids unique, and the new id was not in use |
| ServerProperties.UpdateKeepsValid | backend/server.js:77 | update keeps the store valid |
| ServerProperties.DeleteKeepsValid | backend/server.js:94-98 | delete keeps the store valid, and the deleted id is gone afterwards |
| ServerProperties.DeleteTwice | backend/server.js:94-98 | deleting an existing id succeeds once; deleting it again gives 404 and changes nothing |
| ServerProperties.PastLastPageIsEmpty | backend/server.js:61-64 | a page starting at or past the end gives 200 with an empty list |
| ServerProperties.WindowAt | backend/server.js:61-63 | a position below the limit and inside the collection is in the window |
| ServerProperties.PagesCoverStore | backend/server.js:59-63 | the document at position i is listed on page i/10+1 at position i mod 10 |
| ServerProperties.DecimalQueryListsPage | backend/server.js:58 | the query `?page=n` for a positive n lists page n |
| ServerProperties.NegativeQueryFails | backend/server.js:58-67 | the query `?page=-n` gives 500 with the message and leaves the store unchanged, even when the store is reachable |
| ServerProperties.CreatedIsOnLastPage | backend/server.js:44-63 | a created document is listed on the page that holds the end of the collection |
| ServerProperties.FirstPageHoldsAll | backend/server.js:59-63 | with at most ten documents, page 1 is the whole collection |
| ServerProperties.FirstPageHoldsOldest | backend/server.js:59-63 | with ten or more documents, page 1 is exactly the ten oldest |
| ServerProperties.CreatedMissingFromFirstPage | backend/server.js:59-63 | with ten or more documents, a created document is not on page 1 |
| ServerProperties.Lifecycle | backend/server.js:41-103 | in an empty collection, create, list page 1, update, delete, list page 1 and delete again give 201, the one document, the updated document with the new description, 200, an empty list, then 404 |
| Sidebar.IncludesIffOccurs | frontend/components/Sidebar.js:14-16 | `includes` holds exactly when the term occurs at some position |
| Sidebar.Filter | frontend/components/Sidebar.js:12-19 | every kept todo is in the list and matches; every matching todo of the list is kept |
| Sidebar.FilterKeepsOrder | frontend/components/Sidebar.js:12-19 | the filtered list is the todos at the matching positions, in increasing order; no other position is kept |
| Sidebar.KeptPositionsExact | frontend/components/Sidebar.js:12-19 | a position is kept exactly when its todo matches |
| Sidebar.KeptPositionsAscending | frontend/components/Sidebar.js:12-19 | kept positions are strictly increasing |
| Sidebar.FilterAtKeptPositions | frontend/components/Sidebar.js:12-19 | the k-th filtered todo is the todo at the k-th kept position |
| Sidebar.FilterSound | frontend/components/Sidebar.js:14-18 | every kept todo contains the lower-cased term in its lower-cased title or description |
| Sidebar.FilterComplete | frontend/components/Sidebar.js:12-19 | every todo containing the term in its title or description is kept |
| Sidebar.EmptyTermKeepsAll | frontend/components/Sidebar.js:7-18 | the initial empty search keeps every todo, in order |
| Sidebar.Preview | frontend/components/Sidebar.js:70 | the preview is at most 43 characters; a description of 40 or fewer characters is shown whole; a longer one shows its first 40 characters followed by `...` |
| Sidebar.PreviewIdempotent | frontend/components/Sidebar.js:70 | previewing a preview changes nothing |
| Modal.Handle | frontend/components/Modal.js:10-53 | a closed form accepts no event; Add with both fields filled calls `onAdd` once with exactly `{title, description}`, resets both fields and closes; Add with an empty field does nothing; Cancel closes without adding; typing changes only its own field |
| Modal.AddedDraftsFilled | frontend/components/Modal.js:15-16 | every draft handed to `onAdd` has a non-empty title and description |
| Modal.FillThenAdd | frontend/components/Modal.js:13-20 | typing a title and a description and pressing Add submits exactly those values |
| Session.FetchTodos | frontend/app/page.js:21-35 | one GET of the page is sent; a 2xx answer replaces the list entirely; a non-2xx answer or a thrown error leaves the session unchanged |
| Session.Mount | frontend/app/page.js:11-18 | the page starts with no selection and a closed form, fetches page 1, and holds the fetched list or the empty list |
| Session.AddTodo | frontend/app/page.js:38-57 | the POST is sent first; on 2xx exactly page 1 is refreshed; on failure there is no refresh and no change |
| Session.UpdateTodo | frontend/app/page.js:60-79 | the PUT is sent first; on 2xx exactly page 1 is refreshed; the selection is never patched; on failure there is no change |
| Session.DeleteTodo | frontend/app/page.js:82-98 | the DELETE is sent first; on 2xx page 1 is refreshed and the selection is cleared even if the refresh fails; on failure selection and list are kept |
| Session.SelectTodo | frontend/app/page.js:105 | selecting sets the selection and changes nothing else |
| Session.OpenModal | frontend/app/page.js:116-118 | opening a closed form mounts it blank; an open form keeps its fields |
| Session.ModalInput | frontend/app/page.js:116-118 | a submit from a filled open form is the page's add of exactly the form's values from the closed, blank form: one POST followed only by the page-1 refresh; an unfilled submit does nothing; Cancel closes and blanks the form; typing changes only its own field of the open form and sends nothing; a closed form takes no input |
| Session.ApplyKeepsConsistent | frontend/app/page.js:116-118 | every action keeps a closed form blank, because the form is unmounted while closed |
| Session.RunKeepsConsistent | frontend/app/page.js:116-118 | any sequence of actions keeps a closed form blank |
| Session.CancelThenReopenIsBlank | frontend/app/page.js:116-118 | cancelling and reopening shows a blank form |
| Session.FailuresChangeNothing | frontend/app/page.js:26-34 | failed fetch, add, update and delete calls leave the session unchanged |
| EndToEnd.OkMeansHandled | frontend/app/page.js:26 | the page's `response.ok` accepts exactly the handlers' success answers: 201 for create, and 200 for list, update and delete |
| EndToEnd.SubmitShowsNewTodo | frontend/app/page.js:44-53 | with fewer than ten todos stored, submitting the add form makes the new todo appear in the list refreshed with a query that reads as page 1 |
| EndToEnd.SubmitHidesNewTodo | frontend/app/page.js:53 | with ten or more todos stored, the add is accepted but the page-1 refresh does not show the new todo |
| EndToEnd.RemoveSelected | frontend/app/page.js:86-94 | deleting the selected todo clears the selection; when the refresh succeeds, the deleted id is gone from the list, and when it fails, the list is kept |

## Left out

- Express, CORS, body parsing, `mongoose.connect` and its listeners, and `app.listen` (backend/server.js:1-28 and 105-109). These are process and I/O wiring.
- The MongoDB engine and ObjectId format. Ids are opaque naturals from a counter. Every driver call either completes or throws, chosen by the `Backend` argument. A path id that does not cast to an ObjectId is the `Malformed` case.
- Negative page: MongoDB is assumed to reject a negative skip, so the handler answers 500. The model does not go beyond that assumption.
- `Date.now`: the creation timestamp is the `now` argument.
- Server.Create: body values that are not strings (numbers cast to strings, objects that fail to cast) are not modelled. A field is either an absent value or a string.
- PageQuery.ParseInt: its properties are stated by the lemmas about it, not by a postcondition of its own. `parseInt` returns a double. The model reads the digits as an unbounded integer, so rounding above 2^53 and `Infinity` are not modelled. A repeated `page` parameter (an array) is not modelled either.
- Server.Update: the behaviour for a field missing from the body follows Mongoose 6 and later (the key is dropped). Mongoose 5 would instead set the field to null, and that is not modelled. A JSON `null` sent as a field value would be stored as null; a field is modelled as absent or a string, so a stored null is not represented.
- Sidebar.Lower: only ASCII letters are lower-cased. Full Unicode `toLowerCase`, which can change a string's length, is not modelled.
- Sidebar.Preview: lengths count characters. JavaScript counts UTF-16 code units, and `substring(0, 40)` can split a surrogate pair; that is not modelled.
- `fetch`, `async`/`await` interleavings and overlapping refreshes on the page. Each call is one atomic outcome. For the add form, `onAdd` starts the request and the form closes at once. The model applies the request's outcome and the close together.
- `console.log`/`console.error` logging of failures.
- `frontend/components/Content.js` (edit-mode toggles, input binding) and `frontend/components/Navbar.js`. These are UI state and markup. Content's calls to update and delete are the `Edit` and `Remove` actions of the page.
- All JSX rendering and styling, including the empty-list message of the Sidebar.
