/** Properties relating the handlers to each other and to the invariants
    of the store. */
module HandlerProperties {
  import opened Wrappers
  import opened Text
  import opened Bookshelf
  import opened Handler

  // ---------------------------------------------------------------- create

  /** A book just created is what a lookup of its id returns, provided the
      id was not already in use. */
  lemma AddThenGet(books: seq<Book>, p: Payload, id: BookId, now: Timestamp)
    requires Validate(p).None?
    requires !HasId(books, id)
    ensures GetBookById(AddBook(books, p, id, now).store, id).reply == Found(NewBook(p, id, now))
  {
  }

  /** Deleting a book just created restores the store. */
  lemma AddThenDelete(books: seq<Book>, p: Payload, id: BookId, now: Timestamp)
    requires Validate(p).None?
    requires !HasId(books, id)
    ensures DeleteBookById(AddBook(books, p, id, now).store, id) == Response(Ok, books)
  {
  }

  /** A create with a new id keeps ids unique and pages within the count,
      and records a `finished` that agrees with the pages. */
  lemma AddKeepsInvariant(books: seq<Book>, p: Payload, id: BookId, now: Timestamp)
    requires StoreInvariant(books)
    requires !HasId(books, id)
    ensures StoreInvariant(AddBook(books, p, id, now).store)
    ensures FinishedAgrees(books) ==> FinishedAgrees(AddBook(books, p, id, now).store)
  {
  }

  /** Only an absent name is refused: an empty name is accepted. */
  lemma AddAcceptsEmptyName(books: seq<Book>, p: Payload, id: BookId, now: Timestamp)
    requires p.name == Some("")
    requires p.readPage <= p.pageCount
    ensures AddBook(books, p, id, now).reply == Created(id)
    ensures AddBook(books, p, id, now).store[|books|].name == ""
  {
  }

  // ---------------------------------------------------------------- list

  /** Without filters the listing is every book, projected, in store order. */
  lemma ListWithoutFilters(books: seq<Book>)
    ensures GetAllBooks(books, Query(None, None, None)).reply == Books(Project(books))
  {
  }

  /** The filter that decides a listing: the last present one among
      name, reading, finished whose value is understood. */
  function LastCriterion(q: Query): (c: Option<Criterion>)
    ensures c.Some? ==> !c.value.IdIs?
    ensures c.None? <==> q.name.None? && FlagOf(q.reading).None? && FlagOf(q.finished).None?
  {
    if FlagOf(q.finished).Some? then Some(FlagIs(Finished, FlagOf(q.finished).value))
    else if FlagOf(q.reading).Some? then Some(FlagIs(Reading, FlagOf(q.reading).value))
    else if q.name.Some? then Some(NameContains(q.name.value))
    else None
  }

  /** The listing is decided by the last understood filter alone, evaluated
      against the whole store; with no filter it is the whole store; with
      only filters it does not understand it fails. */
  lemma ListByLastFilter(books: seq<Book>, q: Query)
    ensures GetAllBooks(books, q).reply ==
              if q == Query(None, None, None) then Books(Project(books))
              else match LastCriterion(q)
                   case Some(c) => Books(Project(Select(books, c)))
                   case None => Internal
  {
  }

  /** Every listing is an order-preserving subsequence of the projected store. */
  lemma ListIsOrderedSubsequence(books: seq<Book>, q: Query) returns (idx: seq<nat>)
    requires GetAllBooks(books, q).reply.Books?
    ensures Increasing(idx)
    ensures PicksOut(GetAllBooks(books, q).reply.books, Project(books), idx)
  {
    ListByLastFilter(books, q);
    var c := LastCriterion(q);
    if c.Some? && q != Query(None, None, None) {
      idx := SelectKeepsOrder(books, c.value);
      ProjectPicksOut(Select(books, c.value), books, idx);
    } else {
      idx := seq(|books|, i requires 0 <= i < |books| => i);
    }
  }

  /** The name filter ignores ASCII case on both sides. */
  lemma NameFilterIgnoresCase(b: Book, q: string)
    ensures Matches(NameContains(q), b) == Matches(NameContains(Lower(q)), b)
    ensures Matches(NameContains(q), b) == Matches(NameContains(q), b.(name := Lower(b.name)))
  {
    LowerIdempotent(q);
    LowerIdempotent(b.name);
  }

  /** An empty name query (`?name=`) lists every book, in store order. */
  lemma ListEmptyNameQuery(books: seq<Book>)
    ensures GetAllBooks(books, Query(Some(""), None, None)).reply == Books(Project(books))
  {
    assert Lower("") == "";
    forall i | 0 <= i < |books|
      ensures Matches(NameContains(""), books[i])
    {
      IncludesEmpty(Lower(books[i].name));
    }
    SelectAll(books, NameContains(""));
  }

  /** A query for "war" finds "War and Peace". */
  lemma NameFilterExample(b: Book)
    requires b.name == "War and Peace"
    ensures Matches(NameContains("war"), b)
  {
  }

  // ---------------------------------------------------------------- update

  /** After a successful update, a lookup of the id returns the revised book. */
  lemma UpdateThenGet(books: seq<Book>, bookId: BookId, p: Payload, now: Timestamp)
    requires Validate(p).None?
    requires HasId(books, bookId)
    ensures GetBookById(UpdateBookById(books, bookId, p, now).store, bookId).reply
              == Found(Revise(books[FindIndex(books, bookId)], p, now))
  {
  }

  /** An update keeps ids unique and pages within the count. */
  lemma UpdateKeepsInvariant(books: seq<Book>, bookId: BookId, p: Payload, now: Timestamp)
    requires StoreInvariant(books)
    ensures StoreInvariant(UpdateBookById(books, bookId, p, now).store)
  {
  }

  /** An update does not recompute `finished`: a book read to its last page
      by an update still reads as unfinished. */
  lemma UpdateLeavesFinishedStale()
    ensures var before := [Book("b1", "Dune", 1965, "Herbert", "", "Chilton", 10, 5, false, false, "t0", "t0")];
            var after := UpdateBookById(before, "b1", Payload(Some("Dune"), 1965, "Herbert", "", "Chilton", 10, 10, false), "t1");
            && FinishedAgrees(before)
            && after.reply == Ok
            && !FinishedAgrees(after.store)
  {
  }

  // ---------------------------------------------------------------- delete

  /** With unique ids, a deleted id can no longer be found. */
  lemma DeleteThenGet(books: seq<Book>, bookId: BookId)
    requires UniqueIds(books)
    ensures GetBookById(DeleteBookById(books, bookId).store, bookId).reply == NotFound
  {
  }

  /** A delete keeps ids unique, pages within the count and `finished`
      agreeing with the pages. */
  lemma DeleteKeepsInvariant(books: seq<Book>, bookId: BookId)
    requires StoreInvariant(books)
    ensures StoreInvariant(DeleteBookById(books, bookId).store)
    ensures FinishedAgrees(books) ==> FinishedAgrees(DeleteBookById(books, bookId).store)
  {
  }
}
