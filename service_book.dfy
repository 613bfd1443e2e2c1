/**
 * service/impl/IBookServiceImpl.java: the book service of the current generation.
 * A book's natural key is its ISBN-13; failures are DataNotFound / DataAlreadyExists.
 */
module ServiceBook {
  import opened Wrappers
  import opened Entities
  import opened Exceptions
  import opened Repository
  import Streams
  import Paging
  import BookSaveRequestDto
  import BookResponseDto

  const BookNotFound := "Book not found!"
  const BookDoesNotExist := "Book does not exist!"
  const BookAlreadyExists := "Book already exists!"

  /**
   * findAll(pageable): the books on the requested page, projected in page order, and
   * the page's metadata: the request's number and size, how many books the page
   * holds, how many pages the whole table fills, and how many books it holds.
   */
  function FindAllResult(t: Table<Book>, p: Paging.Pageable)
    : (r: Paging.CustomData<BookResponseDto.Dto, Paging.PageMetadata>)
    requires WellFormed(t)
    ensures |r.data| == |Paging.Slice(Listing(t), p)| <= p.pageSize
    ensures forall i :: 0 <= i < |r.data| ==>
      r.data[i] == BookResponseDto.MapEntityToResponseDto(Paging.Slice(Listing(t), p)[i])
    ensures r.metadata.pageNumber == p.pageNumber && r.metadata.pageSize == p.pageSize
    ensures r.metadata.numberOfElements == |r.data|
    ensures r.metadata.totalElements == |t.rows|
    ensures r.metadata.totalPages == Paging.TotalPages(|t.rows|, p.pageSize)
  {
    var booksPage := Paging.PageOf(Listing(t), p);
    var foundBooks := Streams.Map(BookResponseDto.MapEntityToResponseDto, booksPage.content);
    Paging.CustomData(foundBooks, Paging.MetadataOf(booksPage))
  }

  /** findById(id): the book projected, or DataNotFound. */
  function FindByIdResult(t: Table<Book>, id: int): (r: ServiceResult<BookResponseDto.Dto>)
    ensures r.Err? <==> id !in t.rows
    ensures r.Err? ==> r.error == DataNotFound(BookNotFound)
    ensures r.Ok? ==> r.value == BookResponseDto.MapEntityToResponseDto(t.rows[id])
  {
    match Find(t, id)
    case None => Err(DataNotFound(BookNotFound))
    case Some(found) => Ok(BookResponseDto.MapEntityToResponseDto(found))
  }

  /**
   * save(book): refused when the ISBN-13 is already taken, the table unchanged;
   * otherwise the mapped request is stored as a new book under the next id. The
   * request's author list must not be null (the mapping reads it).
   */
  function SaveEffect(t: Table<Book>, req: BookSaveRequestDto.Dto)
    : (out: (ServiceResult<BookResponseDto.Dto>, Table<Book>))
    requires WellFormed(t) && BooksKeyed(t) && req.authors.Some?
    ensures WellFormed(out.1) && BooksKeyed(out.1)
    ensures Taken(t, Isbn13Of, req.isbn13) ==> out == (Err(DataAlreadyExists(BookAlreadyExists)), t)
    ensures !Taken(t, Isbn13Of, req.isbn13) ==>
      && t.nextId !in t.rows
      && out.1.rows == t.rows[t.nextId := BookSaveRequestDto.MapRequestDtoToEntityWithId(t.nextId, req)]
      && out.0 == Ok(BookResponseDto.MapEntityToResponseDto(out.1.rows[t.nextId]))
  {
    if Taken(t, Isbn13Of, req.isbn13) then
      (Err(DataAlreadyExists(BookAlreadyExists)), t)
    else
      var (u, saved) := SaveBook(t, BookSaveRequestDto.MapRequestDtoToEntity(req));
      (Ok(BookResponseDto.MapEntityToResponseDto(saved)), u)
  }

  /**
   * update(id, book): DataNotFound when no book has that id; otherwise the book is
   * replaced by the request mapped under `id`, so its author list becomes the
   * request's. The ISBN-13 is not checked against the other books.
   */
  function UpdateEffect(t: Table<Book>, id: int, req: BookSaveRequestDto.Dto)
    : (out: (ServiceResult<BookResponseDto.Dto>, Table<Book>))
    requires WellFormed(t) && BooksKeyed(t) && req.authors.Some?
    ensures WellFormed(out.1) && BooksKeyed(out.1)
    ensures id !in t.rows ==> out == (Err(DataNotFound(BookDoesNotExist)), t)
    ensures id in t.rows ==>
      && out.1.rows == t.rows[id := BookSaveRequestDto.MapRequestDtoToEntityWithId(id, req)]
      && out.1.order == t.order && out.1.nextId == t.nextId
      && out.0 == Ok(BookResponseDto.MapEntityToResponseDto(out.1.rows[id]))
  {
    match Find(t, id)
    case None => (Err(DataNotFound(BookDoesNotExist)), t)
    case Some(_) =>
      var (u, updated) := SaveBook(t, BookSaveRequestDto.MapRequestDtoToEntityWithId(id, req));
      (Ok(BookResponseDto.MapEntityToResponseDto(updated)), u)
  }

  class IBookServiceImpl {
    const bookRepository: BookRepository

    constructor (bookRepository: BookRepository)
      ensures this.bookRepository == bookRepository
    {
      this.bookRepository := bookRepository;
    }

    method FindAll(pageable: Paging.Pageable) returns (r: Paging.CustomData<BookResponseDto.Dto, Paging.PageMetadata>)
      requires bookRepository.Valid()
      ensures r == FindAllResult(bookRepository.table, pageable)
    {
      var booksPage := bookRepository.FindAllPage(pageable);
      var foundBooks := Streams.Map(BookResponseDto.MapEntityToResponseDto, booksPage.content);
      var metadata := Paging.PageMetadata(booksPage.number, booksPage.size, |booksPage.content|,
                                          Paging.TotalPages(booksPage.totalElements, booksPage.size),
                                          booksPage.totalElements);
      r := Paging.CustomData(foundBooks, metadata);
    }

    method FindById(id: int) returns (r: ServiceResult<BookResponseDto.Dto>)
      requires bookRepository.Valid()
      ensures r == FindByIdResult(bookRepository.table, id)
    {
      var foundBook := bookRepository.FindById(id);
      if foundBook.None? {
        return Err(DataNotFound(BookNotFound));
      }
      r := Ok(BookResponseDto.MapEntityToResponseDto(foundBook.value));
    }

    method Save(book: BookSaveRequestDto.Dto) returns (r: ServiceResult<BookResponseDto.Dto>)
      requires bookRepository.Valid() && book.authors.Some?
      modifies bookRepository
      ensures bookRepository.Valid()
      ensures (r, bookRepository.table) == SaveEffect(old(bookRepository.table), book)
    {
      var isbn13 := book.isbn13;
      var taken := bookRepository.ExistsByIsbn13(isbn13);
      if taken {
        return Err(DataAlreadyExists(BookAlreadyExists));
      }
      var savedBook := bookRepository.Save(BookSaveRequestDto.MapRequestDtoToEntity(book));
      r := Ok(BookResponseDto.MapEntityToResponseDto(savedBook));
    }

    /**
     * The source also copies seven request fields onto the loaded book before saving;
     * the save that follows merges the freshly mapped request under the same id over
     * that copy, so those assignments have no effect of their own and are not repeated here.
     */
    method Update(id: int, book: BookSaveRequestDto.Dto) returns (r: ServiceResult<BookResponseDto.Dto>)
      requires bookRepository.Valid() && book.authors.Some?
      modifies bookRepository
      ensures bookRepository.Valid()
      ensures (r, bookRepository.table) == UpdateEffect(old(bookRepository.table), id, book)
    {
      var foundBook := bookRepository.FindById(id);
      if foundBook.None? {
        return Err(DataNotFound(BookDoesNotExist));
      }
      var updatedBook := bookRepository.Save(BookSaveRequestDto.MapRequestDtoToEntityWithId(id, book));
      r := Ok(BookResponseDto.MapEntityToResponseDto(updatedBook));
    }

    method DeleteById(id: int)
      requires bookRepository.Valid()
      modifies bookRepository
      ensures bookRepository.Valid()
      ensures bookRepository.table == Remove(old(bookRepository.table), id)
    {
      bookRepository.DeleteById(id);
    }
  }

  /** An empty table yields an empty page with zero pages and zero elements, whatever the request. */
  lemma FindAllOfEmptyTable(p: Paging.Pageable)
    ensures FindAllResult(Empty<Book>(), p)
         == Paging.CustomData([], Paging.PageMetadata(p.pageNumber, p.pageSize, 0, 0, 0))
  {
  }

  /** The data of pages 0 to n - 1 of findAll, one after the other. */
  function DataOfFirstPages(t: Table<Book>, size: Paging.PageSize, n: nat): seq<BookResponseDto.Dto>
    requires WellFormed(t)
  {
    if n == 0 then [] else DataOfFirstPages(t, size, n - 1) + FindAllResult(t, Paging.Pageable(n - 1, size)).data
  }

  lemma {:induction false} DataOfFirstPagesIsMappedPrefix(t: Table<Book>, size: Paging.PageSize, n: nat)
    requires WellFormed(t)
    ensures DataOfFirstPages(t, size, n)
         == Streams.Map(BookResponseDto.MapEntityToResponseDto, Paging.FirstPages(Listing(t), size, n))
  {
    if n > 0 {
      DataOfFirstPagesIsMappedPrefix(t, size, n - 1);
      Streams.MapAppend(BookResponseDto.MapEntityToResponseDto,
                        Paging.FirstPages(Listing(t), size, n - 1),
                        Paging.Slice(Listing(t), Paging.Pageable(n - 1, size)));
    }
  }

  /**
   * Reading findAll page by page, from 0 to the totalPages its metadata reports, yields
   * every stored book exactly once, in ascending order of id.
   */
  lemma FindAllPagesCoverStore(t: Table<Book>, size: Paging.PageSize)
    requires WellFormed(t)
    ensures var n := FindAllResult(t, Paging.Pageable(0, size)).metadata.totalPages;
      DataOfFirstPages(t, size, n) == Streams.Map(BookResponseDto.MapEntityToResponseDto, Listing(t))
  {
    var n := Paging.TotalPages(|t.rows|, size);
    DataOfFirstPagesIsMappedPrefix(t, size, n);
    Paging.PagesCoverListing(Listing(t), size);
  }

  /** A save that succeeds keeps the ISBN-13s unique, and the new book is the only holder of its ISBN-13. */
  lemma SaveKeepsIsbn13Unique(t: Table<Book>, req: BookSaveRequestDto.Dto)
    requires WellFormed(t) && BooksKeyed(t) && req.authors.Some? && Unique(t, Isbn13Of)
    ensures Unique(SaveEffect(t, req).1, Isbn13Of)
    ensures SaveEffect(t, req).0.Ok? ==> Holders(SaveEffect(t, req).1, Isbn13Of, req.isbn13) == {t.nextId}
  {
    if !Taken(t, Isbn13Of, req.isbn13) {
      var e := BookSaveRequestDto.MapRequestDtoToEntityWithId(t.nextId, req);
      assert Isbn13Of(e) == req.isbn13;
      InsertFreshKey(t, Isbn13Of, e);
    }
  }

  /** Saving the same ISBN-13 twice: the second save is refused and leaves the table as the first left it. */
  lemma SecondSaveOfIsbn13Fails(t: Table<Book>, first: BookSaveRequestDto.Dto, second: BookSaveRequestDto.Dto)
    requires WellFormed(t) && BooksKeyed(t) && first.authors.Some? && second.authors.Some?
    requires second.isbn13 == first.isbn13
    ensures var u := SaveEffect(t, first).1;
      SaveEffect(u, second) == (Err(DataAlreadyExists(BookAlreadyExists)), u)
  {
    var u := SaveEffect(t, first).1;
    if !Taken(t, Isbn13Of, first.isbn13) {
      assert Isbn13Of(u.rows[t.nextId]) == second.isbn13;
    }
  }

  /**
   * What a successful save returns is what findById then finds: the new id, the
   * request's fields and its author references in order.
   */
  lemma SaveThenFind(t: Table<Book>, req: BookSaveRequestDto.Dto)
    requires WellFormed(t) && BooksKeyed(t) && req.authors.Some? && !Taken(t, Isbn13Of, req.isbn13)
    ensures var (r, u) := SaveEffect(t, req);
      && r.Ok? && r.value.id >= 1 && r.value.id !in t.rows
      && FindByIdResult(u, r.value.id) == r
      && r.value == BookResponseDto.Dto(r.value.id, req.title, req.subtitle,
                      BookResponseDto.ReferencesShown(req.authors.value), req.totalPages,
                      req.publisher, req.publishedDate, req.isbn13, req.isbn10)
  {
    BookResponseDto.ProjectionOfMappedRequest(t.nextId, req);
  }

  /**
   * After an update, findById shows the request under the same id: every field and the
   * author list come from the request, whatever the book held before; no other book changes.
   */
  lemma UpdateThenFind(t: Table<Book>, id: int, req: BookSaveRequestDto.Dto, other: int)
    requires WellFormed(t) && BooksKeyed(t) && req.authors.Some? && id in t.rows && other != id
    ensures var (r, u) := UpdateEffect(t, id, req);
      && FindByIdResult(u, id) == r
      && r == Ok(BookResponseDto.Dto(id, req.title, req.subtitle,
                   BookResponseDto.ReferencesShown(req.authors.value), req.totalPages,
                   req.publisher, req.publishedDate, req.isbn13, req.isbn10))
      && FindByIdResult(u, other) == FindByIdResult(t, other)
  {
    BookResponseDto.ProjectionOfMappedRequest(id, req);
  }

  /** deleteById: afterwards findById reports DataNotFound, deleting again changes nothing, and no other book is touched. */
  lemma DeleteThenFind(t: Table<Book>, id: int, other: int)
    requires WellFormed(t) && other != id
    ensures FindByIdResult(Remove(t, id), id) == Err(DataNotFound(BookNotFound))
    ensures Remove(Remove(t, id), id) == Remove(t, id)
    ensures FindByIdResult(Remove(t, id), other) == FindByIdResult(t, other)
  {
    RemoveIsIdempotent(t, id);
  }
}
