# Bookshelf API handlers in Dafny

This project models the request handlers of a small bookshelf HTTP service
(`src/handler.js`): create a book, list books with optional filters, fetch a
book by id, update a book by id and delete a book by id. The service keeps
its books in one process-wide JavaScript array. Here that array is an
explicit `seq<Book>`. Each handler is a pure function from the current store
to a `Response(reply, store)`. The reply carries the status the handler
answers with:

- `Created(id)` for 201;
- `Ok`, `Books(summaries)` or `Found(book)` for 200;
- `BadRequest(why)` for 400;
- `NotFound` for 404;
- `Internal` for 500.

The store is the array after the call.

Modules:

- `Wrappers` holds `Option`. `None` is a property that is `undefined` in the request.
- `Text` holds ASCII lower-casing and `String.prototype.includes`, with a
  proof that the scanning definition of `includes` matches the positional one.
- `Bookshelf` holds the `Book` record and the `{id, name, publisher}` summary.
  It also holds `Select` (`Array.prototype.filter` over the handlers'
  predicates), `FindIndex` (`Array.prototype.findIndex` by id) and `Project`
  (the projection a listing sends). It states the store invariants: unique
  ids, `readPage <= pageCount`, and `finished` agreeing with the pages.
- `Handler` holds the five handlers.
- `HandlerProperties` holds lemmas that relate the handlers to each other
  and to the invariants.

Helpers without a contract of their own, whose behaviour the rows below state:

- `Text.Includes` is `.includes` (src/handler.js:113).
- `Bookshelf.Matches` is the predicates passed to `filter` (src/handler.js:113-133 and :161).
- `Handler.NewBook` is the record a create builds (src/handler.js:41-67).
- `Handler.Revise` is the object spread of an update (src/handler.js:233-244).
- `Handler.ParseFlag`, `Handler.NameStep` and `Handler.FlagStep` are the three
  filter blocks of the listing (src/handler.js:111-137).

Three behaviours of the handler code a reader might not expect:

- Create and update refuse only an absent name (`name === undefined`). An
  empty name is accepted (`AddAcceptsEmptyName`).
- Update does not recompute `finished`. The old value is carried over by the
  object spread (`UpdateLeavesFinishedStale` exhibits a store whose
  `finished` stops agreeing with its pages).
- The list filters are not combined. Each present filter recomputes from the
  whole store, and the last one whose value is understood decides the result
  (`ListByLastFilter`).

A `reading` or `finished` value other than `'0'`/`'1'` keeps the previous
`returnBook`. When that is still `undefined`, the `forEach` throws and the
framework answers 500. The model returns `Internal` in that case.

## Model

| member | source | states |
|---|---|---|
| Text.IncludesIff | src/handler.js:113 | the substring test used by the name filter holds exactly when the query occurs at some position of the name (both directions) |
| Text.Lower | src/handler.js:113 | lower-casing keeps the length, maps each character through ASCII lower-casing, and leaves no upper-case ASCII letter |
| Text.LowerIdempotent | src/handler.js:113 | lower-casing an already lower-cased string changes nothing, so lower-casing both sides makes the comparison case-insensitive |
| Bookshelf.Project | src/handler.js:139-148 | the listing's projection has one summary per book, in store order, each holding that book's id, name and publisher |
| Bookshelf.Select | src/handler.js:113-133 | a filter result is no longer than the store, holds only stored books that match, and holds every stored book that matches |
| Bookshelf.SelectKeepsOrder | src/handler.js:113-133 | a filter result is the order-preserving subsequence of the store at exactly the matching positions |
| Bookshelf.SelectAll | src/handler.js:113-133 | a filter that every book passes returns the whole store unchanged |
| Bookshelf.FindIndex | src/handler.js:226 | the id lookup yields -1 exactly when no book has the id, otherwise the first position holding it |
| Bookshelf.FirstMatchIsFindIndex | src/handler.js:161 | the first element of the filter by id exists exactly when the id is stored, and it is the book at the first position holding the id |
| Handler.Validate | src/handler.js:18-38 | the check shared by create and update: a payload is accepted exactly when the name is present and readPage does not exceed pageCount; a missing name is reported first, even when readPage also exceeds pageCount; a present name with readPage above pageCount gets the page error |
| Handler.AddBook | src/handler.js:5-97 | a missing name gives the name error even when readPage also exceeds pageCount; readPage above pageCount gives the page error; both leave the store unchanged; a valid payload always gives Created (the 500 branch is unreachable), appends exactly one book carrying the payload, the id and equal timestamps, with finished true exactly when readPage equals pageCount, and leaves the earlier books unchanged |
| Handler.GetAllBooks | src/handler.js:99-154 | a listing never changes the store; it answers either summaries (no more than the store holds) or Internal, and Internal exactly when there is no name filter, some flag filter is present and none is understood |
| Handler.GetBookById | src/handler.js:156-185 | a lookup never changes the store; it answers NotFound exactly when no book has the id, otherwise the first book holding it |
| Handler.UpdateBookById | src/handler.js:187-263 | an invalid payload gives BadRequest whether or not the id exists; a valid payload with an unknown id gives NotFound; both leave the store unchanged; otherwise only the first book with the id changes, keeping its id, insertedAt and finished and taking the payload's fields and the new updatedAt, and the length is kept |
| Handler.DeleteBookById | src/handler.js:265-291 | an unknown id gives NotFound and leaves the store unchanged; otherwise exactly the first book with the id is removed, the others keep their order, the length drops by one and no book is added |
| HandlerProperties.AddThenGet | src/handler.js:54-70 | after a create with an unused id, a lookup of that id returns the created book |
| HandlerProperties.AddThenDelete | src/handler.js:270-274 | deleting a book just created with an unused id restores the previous store |
| HandlerProperties.AddKeepsInvariant | src/handler.js:29-70 | a create with an unused id keeps ids unique and readPage within pageCount, and keeps finished agreeing with the pages |
| HandlerProperties.AddAcceptsEmptyName | src/handler.js:19 | a payload whose name is the empty string passes validation and is stored |
| HandlerProperties.ListWithoutFilters | src/handler.js:103-148 | with no filter the listing is every book, projected, in store order |
| HandlerProperties.LastCriterion | src/handler.js:111-137 | the deciding filter is absent exactly when no name is given and no flag value is understood, and it is never a lookup by id |
| HandlerProperties.ListByLastFilter | src/handler.js:111-137 | the listing is decided by the last understood filter alone, evaluated against the whole store; it is the whole store when no filter is given, and Internal when only filters it does not understand are given |
| HandlerProperties.ListIsOrderedSubsequence | src/handler.js:112-148 | every successful listing is an order-preserving subsequence of the projected store |
| HandlerProperties.NameFilterIgnoresCase | src/handler.js:113 | the name filter gives the same answer for a query and its lower-cased form, and for a stored name and its lower-cased form |
| HandlerProperties.ListEmptyNameQuery | src/handler.js:112-113 | an empty name query lists every book, projected, in store order |
| HandlerProperties.NameFilterExample | src/handler.js:113 | the query "war" matches the name "War and Peace" |
| HandlerProperties.UpdateThenGet | src/handler.js:226-244 | after a successful update, a lookup of the id returns the revised book |
| HandlerProperties.UpdateKeepsInvariant | src/handler.js:211-244 | an update keeps ids unique and readPage within pageCount |
| HandlerProperties.UpdateLeavesFinishedStale | src/handler.js:233-244 | an update that raises readPage to pageCount leaves finished false, so finished no longer agrees with the pages |
| HandlerProperties.DeleteThenGet | src/handler.js:270-274 | when ids are unique, a lookup of a deleted id returns NotFound |
| HandlerProperties.DeleteKeepsInvariant | src/handler.js:270-274 | a delete keeps ids unique, readPage within pageCount and finished agreeing with the pages |

## Left out

- The framework plumbing (`h.response`, `response.code`) and the message texts. Only the status and the data are modelled.
- `nanoid(16)` is a parameter `id`. The handler never checks that the id is new. The lemmas that need a new id require it.
- `new Date().toISOString()` is a parameter `now`, an opaque string.
- The module-global array from `./books` is not part of this model. The store is passed in and returned instead.
- JavaScript `toLowerCase` is modelled as ASCII lower-casing only. Full Unicode case mapping is not modelled.
- JavaScript dynamic typing is not modelled: `year`, `pageCount` and `readPage` are integers, the text fields are strings, `reading` is a boolean, and only `name` may be absent. A non-numeric `readPage > pageCount` comparison, a non-string `name` reaching `toLowerCase`, and absent non-name properties are outside the model.
- The thrown `TypeError` of `forEach` on `undefined` and the 500 the framework sends for it are modelled as the single reply `Internal`.
