/**
 * services/impl/IBookServiceImpl.java: the book service of the older generation.
 * It keys books on their ISBN-13, returns null (`None`) for a missing book or a taken
 * ISBN-13, and answers with the single-author projection BookResponseDTO.
 */
module ServicesBook {
  import opened Wrappers
  import opened Entities
  import opened Repository
  import BookRequestDTO
  import BookResponseDTO

  /** findById(id): the book projected, or null. */
  function FindByIdResult(t: Table<Book>, id: int): (r: Option<BookResponseDTO.Dto>)
    ensures r.None? <==> id !in t.rows
    ensures r.Some? ==> r.value == BookResponseDTO.EntityToResponseDTO(t.rows[id])
  {
    match Find(t, id)
    case None => None
    case Some(found) => Some(BookResponseDTO.EntityToResponseDTO(found))
  }

  /** save(book): null when the ISBN-13 is taken, the table unchanged; otherwise a new book under the next id. */
  function SaveEffect(t: Table<Book>, req: BookRequestDTO.Dto)
    : (out: (Option<BookResponseDTO.Dto>, Table<Book>))
    requires WellFormed(t) && BooksKeyed(t)
    ensures WellFormed(out.1) && BooksKeyed(out.1)
    ensures Taken(t, Isbn13Of, req.isbn13) ==> out == (None, t)
    ensures !Taken(t, Isbn13Of, req.isbn13) ==>
      && t.nextId !in t.rows
      && out.1.rows == t.rows[t.nextId := BookRequestDTO.RequestDTOtoEntityWithId(t.nextId, req)]
      && out.0 == Some(BookResponseDTO.EntityToResponseDTO(out.1.rows[t.nextId]))
  {
    if Taken(t, Isbn13Of, req.isbn13) then
      (None, t)
    else
      var (u, saved) := SaveBook(t, BookRequestDTO.RequestDTOtoEntity(req));
      (Some(BookResponseDTO.EntityToResponseDTO(saved)), u)
  }

  /**
   * updateById(id, book): null when no book has that id; otherwise the stored book is
   * replaced by the request mapped under `id`, which has no author list.
   */
  function UpdateEffect(t: Table<Book>, id: int, req: BookRequestDTO.Dto)
    : (out: (Option<BookResponseDTO.Dto>, Table<Book>))
    requires WellFormed(t) && BooksKeyed(t)
    ensures WellFormed(out.1) && BooksKeyed(out.1)
    ensures id !in t.rows ==> out == (None, t)
    ensures id in t.rows ==>
      && out.1.rows == t.rows[id := BookRequestDTO.RequestDTOtoEntityWithId(id, req)]
      && out.1.order == t.order && out.1.nextId == t.nextId
      && out.0 == Some(BookResponseDTO.EntityToResponseDTO(out.1.rows[id]))
  {
    if id !in t.rows then
      (None, t)
    else
      var (u, updated) := SaveBook(t, BookRequestDTO.RequestDTOtoEntityWithId(id, req));
      (Some(BookResponseDTO.EntityToResponseDTO(updated)), u)
  }

  class IBookServiceImpl {
    const bookRepository: BookRepository

    constructor (bookRepository: BookRepository)
      ensures this.bookRepository == bookRepository
    {
      this.bookRepository := bookRepository;
    }

    method FindById(id: int) returns (r: Option<BookResponseDTO.Dto>)
      requires bookRepository.Valid()
      ensures r == FindByIdResult(bookRepository.table, id)
    {
      var foundBook := bookRepository.FindById(id);
      r := match foundBook
        case None => None
        case Some(b) => Some(BookResponseDTO.EntityToResponseDTO(b));
    }

    method Save(book: BookRequestDTO.Dto) returns (r: Option<BookResponseDTO.Dto>)
      requires bookRepository.Valid()
      modifies bookRepository
      ensures bookRepository.Valid()
      ensures (r, bookRepository.table) == SaveEffect(old(bookRepository.table), book)
    {
      var taken := bookRepository.ExistsByIsbn13(book.isbn13);
      if taken {
        return None;
      }
      var saved := bookRepository.Save(BookRequestDTO.RequestDTOtoEntity(book));
      r := Some(BookResponseDTO.EntityToResponseDTO(saved));
    }

    method UpdateById(id: int, book: BookRequestDTO.Dto) returns (r: Option<BookResponseDTO.Dto>)
      requires bookRepository.Valid()
      modifies bookRepository
      ensures bookRepository.Valid()
      ensures (r, bookRepository.table) == UpdateEffect(old(bookRepository.table), id, book)
    {
      var present := bookRepository.ExistsById(id);
      if !present {
        return None;
      }
      var updated := bookRepository.Save(BookRequestDTO.RequestDTOtoEntityWithId(id, book));
      r := Some(BookResponseDTO.EntityToResponseDTO(updated));
    }

    method DeleteById(id: int)
      requires bookRepository.Valid()
      modifies bookRepository
      ensures bookRepository.Valid()
      ensures bookRepository.table == Remove(old(bookRepository.table), id)
    {
      bookRepository.DeleteById(id);
    }
  }

  /** A save that succeeds keeps the ISBN-13s unique, and the new book is the only holder of its ISBN-13. */
  lemma SaveKeepsIsbn13Unique(t: Table<Book>, req: BookRequestDTO.Dto)
    requires WellFormed(t) && BooksKeyed(t) && Unique(t, Isbn13Of)
    ensures Unique(SaveEffect(t, req).1, Isbn13Of)
    ensures SaveEffect(t, req).0.Some? ==> Holders(SaveEffect(t, req).1, Isbn13Of, req.isbn13) == {t.nextId}
  {
    if !Taken(t, Isbn13Of, req.isbn13) {
      var e := BookRequestDTO.RequestDTOtoEntityWithId(t.nextId, req);
      assert Isbn13Of(e) == req.isbn13;
      InsertFreshKey(t, Isbn13Of, e);
    }
  }

  /**
   * What a successful save returns is what findById then finds: the new id and the
   * request's title, author, page count, publisher and date, with a null ISBN.
   */
  lemma SaveThenFind(t: Table<Book>, req: BookRequestDTO.Dto)
    requires WellFormed(t) && BooksKeyed(t) && !Taken(t, Isbn13Of, req.isbn13)
    ensures var (r, u) := SaveEffect(t, req);
      && r.Some? && r.value.id >= 1 && r.value.id !in t.rows
      && FindByIdResult(u, r.value.id) == r
      && r.value == BookResponseDTO.Dto(r.value.id, req.title, req.author, req.totalPages,
                                        req.publisher, req.publishedDate, None)
  {
    BookResponseDTO.ProjectionOfMappedRequest(t.nextId, req);
  }

  /** After an update the stored book is the request under the id and nothing else; no other book changes. */
  lemma UpdateThenFind(t: Table<Book>, id: int, req: BookRequestDTO.Dto, other: int)
    requires WellFormed(t) && BooksKeyed(t) && id in t.rows && other != id
    ensures var (r, u) := UpdateEffect(t, id, req);
      && BookRequestDTO.RequestOf(u.rows[id]) == req && u.rows[id].authors == []
      && FindByIdResult(u, id) == r
      && FindByIdResult(u, other) == FindByIdResult(t, other)
  {
  }

  /** deleteById: afterwards findById returns null, deleting again changes nothing, and no other book is touched. */
  lemma DeleteThenFind(t: Table<Book>, id: int, other: int)
    requires WellFormed(t) && other != id
    ensures FindByIdResult(Remove(t, id), id).None?
    ensures Remove(Remove(t, id), id) == Remove(t, id)
    ensures FindByIdResult(Remove(t, id), other) == FindByIdResult(t, other)
  {
    RemoveIsIdempotent(t, id);
  }
}
