/** The five request handlers of the bookshelf service, as pure functions
    from the current store (and, where the handler needs them, the request
    payload, a fresh id and the current time) to a reply and the new store. */
module Handler {
  import opened Wrappers
  import opened Bookshelf

  /** The request body of a create or an update. Only `name` may be absent:
      the other properties are taken as present and well typed. */
  datatype Payload = Payload(
    name: Option<string>,
    year: int,
    author: string,
    summary: string,
    publisher: string,
    pageCount: int,
    readPage: int,
    reading: bool)

  /** Why a payload was refused (the two 400 messages). */
  datatype Invalid = NameMissing | ReadPageExceedsPageCount

  /** The status of the response and the data it carries. */
  datatype Reply =
    | Created(bookId: BookId)       // 201 with data.bookId
    | Ok                            // 200, message only
    | Books(books: seq<Summary>)    // 200 with data.books
    | Found(book: Book)             // 200 with data.book
    | BadRequest(why: Invalid)      // 400
    | NotFound                      // 404
    | Internal                      // 500

  datatype Response = Response(reply: Reply, store: seq<Book>)

  /** The two payload checks shared by create and update, name first. */
  function Validate(p: Payload): (v: Option<Invalid>)
    ensures v.None? <==> p.name.Some? && p.readPage <= p.pageCount
    ensures p.name.None? ==> v == Some(NameMissing)
    ensures p.name.Some? && p.readPage > p.pageCount ==> v == Some(ReadPageExceedsPageCount)
  {
    if p.name.None? then Some(NameMissing)
    else if p.readPage > p.pageCount then Some(ReadPageExceedsPageCount)
    else None
  }

  /** The payload's user-supplied properties are those of `b`. */
  ghost predicate TakesPayload(b: Book, p: Payload) {
    && p.name == Some(b.name)
    && b.year == p.year
    && b.author == p.author
    && b.summary == p.summary
    && b.publisher == p.publisher
    && b.pageCount == p.pageCount
    && b.readPage == p.readPage
    && b.reading == p.reading
  }

  /** The record a successful create stores. */
  function NewBook(p: Payload, id: BookId, now: Timestamp): Book
    requires p.name.Some?
  {
    Book(id, p.name.value, p.year, p.author, p.summary, p.publisher,
         p.pageCount, p.readPage, !(p.readPage < p.pageCount), p.reading, now, now)
  }

  /** POST /books. `id` is the `nanoid(16)` token and `now` the current time;
      the handler never checks that `id` is new. */
  function AddBook(books: seq<Book>, p: Payload, id: BookId, now: Timestamp): (r: Response)
    ensures p.name.None? ==> r == Response(BadRequest(NameMissing), books)
    ensures p.name.Some? && p.readPage > p.pageCount ==>
              r == Response(BadRequest(ReadPageExceedsPageCount), books)
    ensures Validate(p).None? ==>
              && r.reply == Created(id)
              && |r.store| == |books| + 1
              && r.store[..|books|] == books
              && var b := r.store[|books|];
                 && b.id == id
                 && TakesPayload(b, p)
                 && b.finished == (p.readPage == p.pageCount)
                 && b.insertedAt == b.updatedAt == now
  {
    match Validate(p)
    case Some(why) => Response(BadRequest(why), books)
    case None =>
      var store := books + [NewBook(p, id, now)];
      assert store[|books|].id == id;
      // the code re-reads the array to confirm the push took effect
      if |Select(store, IdIs(id))| > 0 then Response(Created(id), store)
      else Response(Internal, store)
  }

  /** The query string of GET /books; each property may be absent. */
  datatype Query = Query(name: Option<string>, reading: Option<string>, finished: Option<string>)

  /** The query value `'1'` means true and `'0'` false; anything else is ignored. */
  function ParseFlag(v: string): Option<bool> {
    if v == "1" then Some(true) else if v == "0" then Some(false) else None
  }

  /** The flag a query property asks for, if it is present and recognised. */
  function FlagOf(q: Option<string>): Option<bool> {
    match q
    case None => None
    case Some(v) => ParseFlag(v)
  }

  /** The two variables of the listing handler: `returnBook` and the
      `data.books` about to be sent; None is `undefined`. */
  datatype ListState = ListState(returnBook: Option<seq<Book>>, shown: Option<seq<Book>>)

  /** The `name` block: when present, filters the whole store by name. */
  function NameStep(books: seq<Book>, name: Option<string>, st: ListState): ListState {
    match name
    case None => st
    case Some(n) =>
      var filtered := Some(Select(books, NameContains(n)));
      ListState(filtered, filtered)
  }

  /** The `reading` or `finished` block: when present, filters the whole store
      by the flag if the value is recognised, otherwise keeps the previous
      `returnBook`; in both cases that becomes the data to send. */
  function FlagStep(books: seq<Book>, flag: Flag, value: Option<string>, st: ListState): ListState {
    match value
    case None => st
    case Some(v) =>
      var filtered :=
        match ParseFlag(v)
        case Some(want) => Some(Select(books, FlagIs(flag, want)))
        case None => st.returnBook;
      ListState(filtered, filtered)
  }

  /** GET /books. The filters are not chained: each present one recomputes
      from the whole store. When the data to send is `undefined`, the
      `forEach` throws and the framework answers 500, modelled as Internal. */
  function GetAllBooks(books: seq<Book>, q: Query): (r: Response)
    ensures r.store == books
    ensures r.reply.Books? || r.reply.Internal?
    ensures r.reply.Internal? <==>
              && q.name.None?
              && (q.reading.Some? || q.finished.Some?)
              && FlagOf(q.reading).None?
              && FlagOf(q.finished).None?
    ensures r.reply.Books? ==> |r.reply.books| <= |books|
  {
    var st0 := ListState(None, Some(books));
    var st1 := NameStep(books, q.name, st0);
    var st2 := FlagStep(books, Reading, q.reading, st1);
    var st3 := FlagStep(books, Finished, q.finished, st2);
    match st3.shown
    case None => Response(Internal, books)
    case Some(shown) => Response(Books(Project(shown)), books)
  }

  /** GET /books/{bookId}: the first book of `books.filter(b => b.id === bookId)`. */
  function GetBookById(books: seq<Book>, bookId: BookId): (r: Response)
    ensures r.store == books
    ensures r.reply.Found? || r.reply.NotFound?
    ensures r.reply.NotFound? <==> !HasId(books, bookId)
    ensures r.reply.Found? ==> r.reply.book == books[FindIndex(books, bookId)]
  {
    FirstMatchIsFindIndex(books, bookId);
    var matches := Select(books, IdIs(bookId));
    if |matches| > 0 then Response(Found(matches[0]), books)
    else Response(NotFound, books)
  }

  /** The `{...books[index], name, ..., updatedAt}` record of an update:
      `id`, `insertedAt` and `finished` come from the old record. */
  function Revise(b: Book, p: Payload, now: Timestamp): Book
    requires p.name.Some?
  {
    b.(name := p.name.value, year := p.year, author := p.author, summary := p.summary,
       publisher := p.publisher, pageCount := p.pageCount, readPage := p.readPage,
       reading := p.reading, updatedAt := now)
  }

  /** PUT /books/{bookId}. The payload is checked before the id is looked up. */
  function UpdateBookById(books: seq<Book>, bookId: BookId, p: Payload, now: Timestamp): (r: Response)
    ensures p.name.None? ==> r == Response(BadRequest(NameMissing), books)
    ensures p.name.Some? && p.readPage > p.pageCount ==>
              r == Response(BadRequest(ReadPageExceedsPageCount), books)
    ensures Validate(p).None? && !HasId(books, bookId) ==> r == Response(NotFound, books)
    ensures Validate(p).None? && HasId(books, bookId) ==>
              && r.reply == Ok
              && |r.store| == |books|
              && var k := FindIndex(books, bookId);
                 && (forall j :: 0 <= j < |books| && j != k ==> r.store[j] == books[j])
                 && r.store[k].id == bookId
                 && r.store[k].insertedAt == books[k].insertedAt
                 && r.store[k].finished == books[k].finished
                 && TakesPayload(r.store[k], p)
                 && r.store[k].updatedAt == now
  {
    match Validate(p)
    case Some(why) => Response(BadRequest(why), books)
    case None =>
      var index := FindIndex(books, bookId);
      if index != -1 then Response(Ok, books[index := Revise(books[index], p, now)])
      else Response(NotFound, books)
  }

  /** DELETE /books/{bookId}: `books.splice(index, 1)` at the first match. */
  function DeleteBookById(books: seq<Book>, bookId: BookId): (r: Response)
    ensures !HasId(books, bookId) ==> r == Response(NotFound, books)
    ensures HasId(books, bookId) ==>
              && r.reply == Ok
              && |r.store| == |books| - 1
              && var k := FindIndex(books, bookId);
                 && (forall j :: 0 <= j < k ==> r.store[j] == books[j])
                 && (forall j :: k <= j < |r.store| ==> r.store[j] == books[j + 1])
    ensures multiset(r.store) <= multiset(books)
  {
    var index := FindIndex(books, bookId);
    if index != -1 then
      assert books == books[..index] + [books[index]] + books[index + 1..];
      Response(Ok, books[..index] + books[index + 1..])
    else Response(NotFound, books)
  }
}
