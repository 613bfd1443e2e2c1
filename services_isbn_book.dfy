/**
 * services/impl/BookServiceImpl.java: the oldest book service. It keys books on the
 * single `isbn`, builds the entity from BookRequest itself, returns entities rather
 * than projections, and reports a missing book or a taken ISBN with null (`None`).
 */
module ServicesIsbnBook {
  import opened Wrappers
  import opened Entities
  import opened Repository
  import BookRequest

  /** The request fields as stored in a book. */
  function RequestOf(e: Book): BookRequest.Dto {
    BookRequest.Dto(e.title, e.author, e.totalPages, e.publisher, e.publishedDate, e.isbn)
  }

  /** The builder call of save(book): the six request fields on an otherwise empty book. */
  function BuildBook(req: BookRequest.Dto): (e: Book)
    ensures RequestOf(e) == req
    ensures e.id == UnsetId && e.subtitle.None? && e.authors == []
    ensures e.isbn13.None? && e.isbn10.None?
  {
    NoBook.(title := req.title, author := req.author, totalPages := req.totalPages,
            publisher := req.publisher, publishedDate := req.publishedDate, isbn := req.isbn)
  }

  /** The builder call of updateById(id, book): the same book with the given id. */
  function BuildBookWithId(id: int, req: BookRequest.Dto): (e: Book)
    ensures e.id == id
    ensures e.(id := UnsetId) == BuildBook(req)
  {
    BuildBook(req).(id := id)
  }

  /** save(book): null when the ISBN is taken, the table unchanged; otherwise a new book under the next id. */
  function SaveEffect(t: Table<Book>, req: BookRequest.Dto): (out: (Option<Book>, Table<Book>))
    requires WellFormed(t) && BooksKeyed(t)
    ensures WellFormed(out.1) && BooksKeyed(out.1)
    ensures Taken(t, IsbnOf, req.isbn) ==> out == (None, t)
    ensures !Taken(t, IsbnOf, req.isbn) ==>
      && t.nextId !in t.rows
      && out.1.rows == t.rows[t.nextId := BuildBookWithId(t.nextId, req)]
      && out.0 == Some(BuildBookWithId(t.nextId, req))
  {
    if Taken(t, IsbnOf, req.isbn) then
      (None, t)
    else
      var (u, saved) := SaveBook(t, BuildBook(req));
      (Some(saved), u)
  }

  /** updateById(id, book): null when no book has that id; otherwise the stored book is replaced by the request under `id`. */
  function UpdateEffect(t: Table<Book>, id: int, req: BookRequest.Dto): (out: (Option<Book>, Table<Book>))
    requires WellFormed(t) && BooksKeyed(t)
    ensures WellFormed(out.1) && BooksKeyed(out.1)
    ensures id !in t.rows ==> out == (None, t)
    ensures id in t.rows ==>
      && out.1.rows == t.rows[id := BuildBookWithId(id, req)]
      && out.1.order == t.order && out.1.nextId == t.nextId
      && out.0 == Some(BuildBookWithId(id, req))
  {
    match Find(t, id)
    case None => (None, t)
    case Some(_) =>
      var (u, updated) := SaveBook(t, BuildBookWithId(id, req));
      (Some(updated), u)
  }

  class BookServiceImpl {
    const bookRepository: BookRepository

    constructor (bookRepository: BookRepository)
      ensures this.bookRepository == bookRepository
    {
      this.bookRepository := bookRepository;
    }

    method FindById(id: int) returns (r: Option<Book>)
      requires bookRepository.Valid()
      ensures r == Find(bookRepository.table, id)
    {
      r := bookRepository.FindById(id);
    }

    method Save(book: BookRequest.Dto) returns (r: Option<Book>)
      requires bookRepository.Valid()
      modifies bookRepository
      ensures bookRepository.Valid()
      ensures (r, bookRepository.table) == SaveEffect(old(bookRepository.table), book)
    {
      var taken := ExistsByIsbn(book.isbn);
      if taken {
        return None;
      }
      var saved := bookRepository.Save(BuildBook(book));
      r := Some(saved);
    }

    method UpdateById(id: int, book: BookRequest.Dto) returns (r: Option<Book>)
      requires bookRepository.Valid()
      modifies bookRepository
      ensures bookRepository.Valid()
      ensures (r, bookRepository.table) == UpdateEffect(old(bookRepository.table), id, book)
    {
      var findBook := bookRepository.FindById(id);
      if findBook.None? {
        return None;
      }
      var updated := bookRepository.Save(BuildBookWithId(id, book));
      r := Some(updated);
    }

    method DeleteById(id: int)
      requires bookRepository.Valid()
      modifies bookRepository
      ensures bookRepository.Valid()
      ensures bookRepository.table == Remove(old(bookRepository.table), id)
    {
      bookRepository.DeleteById(id);
    }

    /** The private existsByIsbn(isbn): whether some stored book has that ISBN. */
    method ExistsByIsbn(isbn: Text) returns (b: bool)
      requires bookRepository.Valid()
      ensures b <==> Taken(bookRepository.table, IsbnOf, isbn)
    {
      b := bookRepository.ExistsByIsbn(isbn);
    }
  }

  /** A save that succeeds keeps the ISBNs unique, and the new book is the only holder of its ISBN. */
  lemma SaveKeepsIsbnUnique(t: Table<Book>, req: BookRequest.Dto)
    requires WellFormed(t) && BooksKeyed(t) && Unique(t, IsbnOf)
    ensures Unique(SaveEffect(t, req).1, IsbnOf)
    ensures SaveEffect(t, req).0.Some? ==> Holders(SaveEffect(t, req).1, IsbnOf, req.isbn) == {t.nextId}
  {
    if !Taken(t, IsbnOf, req.isbn) {
      var e := BuildBookWithId(t.nextId, req);
      assert IsbnOf(e) == req.isbn;
      InsertFreshKey(t, IsbnOf, e);
    }
  }

  /** A second save of the same ISBN is refused and leaves the table as the first left it. */
  lemma SecondSaveOfIsbnFails(t: Table<Book>, first: BookRequest.Dto, second: BookRequest.Dto)
    requires WellFormed(t) && BooksKeyed(t) && second.isbn == first.isbn
    ensures var u := SaveEffect(t, first).1;
      SaveEffect(u, second) == (None, u)
  {
    var u := SaveEffect(t, first).1;
    if !Taken(t, IsbnOf, first.isbn) {
      assert IsbnOf(u.rows[t.nextId]) == second.isbn;
    }
  }

  /** The book a successful save returns is what findById then finds, and it carries the request's fields. */
  lemma SaveThenFind(t: Table<Book>, req: BookRequest.Dto)
    requires WellFormed(t) && BooksKeyed(t) && !Taken(t, IsbnOf, req.isbn)
    ensures var (r, u) := SaveEffect(t, req);
      && r.Some? && r.value.id >= 1 && r.value.id !in t.rows
      && Find(u, r.value.id) == r && RequestOf(r.value) == req
  {
  }

  /**
   * updateById does not re-check the ISBN: two books with distinct ISBNs end up sharing
   * one when the first is updated to the second's.
   */
  lemma UpdateCanDuplicateIsbn()
    ensures var t := Table(map[1 := NoBook.(id := 1, isbn := Some("A")),
                              2 := NoBook.(id := 2, isbn := Some("B"))], [1, 2], 3);
      && WellFormed(t) && BooksKeyed(t) && Unique(t, IsbnOf)
      && !Unique(UpdateEffect(t, 1, BookRequest.Dto(None, None, 0, None, None, Some("B"))).1, IsbnOf)
  {
    var t := Table(map[1 := NoBook.(id := 1, isbn := Some("A")),
                       2 := NoBook.(id := 2, isbn := Some("B"))], [1, 2], 3);
    assert t.rows.Keys == {1, 2};
    var u := UpdateEffect(t, 1, BookRequest.Dto(None, None, 0, None, None, Some("B"))).1;
    assert IsbnOf(u.rows[1]) == IsbnOf(u.rows[2]);
  }

  /** deleteById: afterwards findById finds nothing, deleting again changes nothing, and no other book is touched. */
  lemma DeleteThenFind(t: Table<Book>, id: int, other: int)
    requires WellFormed(t) && other != id
    ensures Find(Remove(t, id), id).None?
    ensures Remove(Remove(t, id), id) == Remove(t, id)
    ensures Find(Remove(t, id), other) == Find(t, other)
  {
    RemoveIsIdempotent(t, id);
  }
}
