/**
 * service/impl/IAuthorServiceImpl.java: the author service of the current generation.
 * Failures are the DataNotFound / DataAlreadyExists exceptions, returned here as `Err`.
 * Each operation is a method of the service class, proved equal to a function of the
 * author table before the call; the lemmas are about those functions.
 */
module ServiceAuthor {
  import opened Wrappers
  import opened Entities
  import opened Exceptions
  import opened Repository
  import Streams
  import Paging
  import AuthorRequestDto
  import AuthorFindResponseDto
  import AuthorSaveResponseDto

  const AuthorNotFound := "Author not found!"
  const AuthorDoesNotExist := "Author does not exist!"
  const AuthorAlreadyExists := "Author already exists!"

  /** findAll(pageable): the authors on the requested page of the listing, projected, in page order. */
  function FindAllResult(t: Table<Author>, p: Paging.Pageable): (r: seq<AuthorFindResponseDto.Dto>)
    requires WellFormed(t)
    ensures |r| == |Paging.Slice(Listing(t), p)| <= p.pageSize
    ensures forall i :: 0 <= i < |r| ==>
      r[i] == AuthorFindResponseDto.MapEntityToResponseDto(Paging.Slice(Listing(t), p)[i])
  {
    Streams.Map(AuthorFindResponseDto.MapEntityToResponseDto, Paging.PageOf(Listing(t), p).content)
  }

  /** findById(id): the author projected with its books, or DataNotFound. */
  function FindByIdResult(t: Table<Author>, id: int): (r: ServiceResult<AuthorFindResponseDto.Dto>)
    ensures r.Err? <==> id !in t.rows
    ensures r.Err? ==> r.error == DataNotFound(AuthorNotFound)
    ensures r.Ok? ==> r.value == AuthorFindResponseDto.MapEntityToResponseDto(t.rows[id])
  {
    match Find(t, id)
    case None => Err(DataNotFound(AuthorNotFound))
    case Some(found) => Ok(AuthorFindResponseDto.MapEntityToResponseDto(found))
  }

  /**
   * save(author): refused when the pseudonym is already taken, the table unchanged;
   * otherwise the request is stored as a new author under the next id.
   */
  function SaveEffect(t: Table<Author>, req: AuthorRequestDto.Dto)
    : (out: (ServiceResult<AuthorSaveResponseDto.Dto>, Table<Author>))
    requires WellFormed(t) && AuthorsKeyed(t)
    ensures WellFormed(out.1) && AuthorsKeyed(out.1)
    ensures Taken(t, PseudonymOf, req.pseudonym) ==>
      out == (Err(DataAlreadyExists(AuthorAlreadyExists)), t)
    ensures !Taken(t, PseudonymOf, req.pseudonym) ==>
      && t.nextId !in t.rows
      && out.1.rows == t.rows[t.nextId := AuthorRequestDto.MapRequestDtoToEntityWithId(t.nextId, req)]
      && out.0 == Ok(AuthorSaveResponseDto.Dto(t.nextId, req.firstName, req.middleName, req.lastName, req.pseudonym))
  {
    if Taken(t, PseudonymOf, req.pseudonym) then
      (Err(DataAlreadyExists(AuthorAlreadyExists)), t)
    else
      var (u, saved) := SaveAuthor(t, AuthorRequestDto.MapRequestDtoToEntity(req));
      (Ok(AuthorSaveResponseDto.MapEntityToResponseDto(saved)), u)
  }

  /** The four fields update(id, author) copies from the request onto the stored author. */
  function WithRequestFields(found: Author, req: AuthorRequestDto.Dto): (a: Author)
    ensures AuthorRequestDto.RequestOf(a) == req
    ensures a.id == found.id && a.books == found.books
  {
    found.(firstName := req.firstName, middleName := req.middleName,
           lastName := req.lastName, pseudonym := req.pseudonym)
  }

  /**
   * update(id, author): DataNotFound when no author has that id; otherwise the stored
   * author takes the request's four fields and keeps its id and its books. The
   * pseudonym is not checked against the other authors.
   */
  function UpdateEffect(t: Table<Author>, id: int, req: AuthorRequestDto.Dto)
    : (out: (ServiceResult<AuthorSaveResponseDto.Dto>, Table<Author>))
    requires WellFormed(t) && AuthorsKeyed(t)
    ensures WellFormed(out.1) && AuthorsKeyed(out.1)
    ensures id !in t.rows ==> out == (Err(DataNotFound(AuthorDoesNotExist)), t)
    ensures id in t.rows ==>
      && out.1.rows == t.rows[id := WithRequestFields(t.rows[id], req)]
      && out.1.order == t.order && out.1.nextId == t.nextId
      && out.0 == Ok(AuthorSaveResponseDto.Dto(id, req.firstName, req.middleName, req.lastName, req.pseudonym))
  {
    match Find(t, id)
    case None => (Err(DataNotFound(AuthorDoesNotExist)), t)
    case Some(found) =>
      var (u, updated) := SaveAuthor(t, WithRequestFields(found, req));
      (Ok(AuthorSaveResponseDto.MapEntityToResponseDto(updated)), u)
  }

  class IAuthorServiceImpl {
    const authorRepository: AuthorRepository

    constructor (authorRepository: AuthorRepository)
      ensures this.authorRepository == authorRepository
    {
      this.authorRepository := authorRepository;
    }

    method FindAll(pageable: Paging.Pageable) returns (r: seq<AuthorFindResponseDto.Dto>)
      requires authorRepository.Valid()
      ensures r == FindAllResult(authorRepository.table, pageable)
    {
      var foundAuthors := authorRepository.FindAllPage(pageable);
      r := Streams.Map(AuthorFindResponseDto.MapEntityToResponseDto, foundAuthors.content);
    }

    method FindById(id: int) returns (r: ServiceResult<AuthorFindResponseDto.Dto>)
      requires authorRepository.Valid()
      ensures r == FindByIdResult(authorRepository.table, id)
    {
      var foundAuthor := authorRepository.FindById(id);
      if foundAuthor.None? {
        return Err(DataNotFound(AuthorNotFound));
      }
      r := Ok(AuthorFindResponseDto.MapEntityToResponseDto(foundAuthor.value));
    }

    method Save(author: AuthorRequestDto.Dto) returns (r: ServiceResult<AuthorSaveResponseDto.Dto>)
      requires authorRepository.Valid()
      modifies authorRepository
      ensures authorRepository.Valid()
      ensures (r, authorRepository.table) == SaveEffect(old(authorRepository.table), author)
    {
      var pseudonym := author.pseudonym;
      var taken := authorRepository.ExistsByPseudonym(pseudonym);
      if taken {
        return Err(DataAlreadyExists(AuthorAlreadyExists));
      }
      var savedAuthor := authorRepository.Save(AuthorRequestDto.MapRequestDtoToEntity(author));
      r := Ok(AuthorSaveResponseDto.MapEntityToResponseDto(savedAuthor));
    }

    method Update(id: int, author: AuthorRequestDto.Dto) returns (r: ServiceResult<AuthorSaveResponseDto.Dto>)
      requires authorRepository.Valid()
      modifies authorRepository
      ensures authorRepository.Valid()
      ensures (r, authorRepository.table) == UpdateEffect(old(authorRepository.table), id, author)
    {
      var foundAuthor := authorRepository.FindById(id);
      if foundAuthor.None? {
        return Err(DataNotFound(AuthorDoesNotExist));
      }
      var authorToUpdate := foundAuthor.value;
      authorToUpdate := authorToUpdate.(firstName := author.firstName);
      authorToUpdate := authorToUpdate.(middleName := author.middleName);
      authorToUpdate := authorToUpdate.(lastName := author.lastName);
      authorToUpdate := authorToUpdate.(pseudonym := author.pseudonym);
      var updatedAuthor := authorRepository.Save(authorToUpdate);
      r := Ok(AuthorSaveResponseDto.MapEntityToResponseDto(updatedAuthor));
    }

    method DeleteById(id: int)
      requires authorRepository.Valid()
      modifies authorRepository
      ensures authorRepository.Valid()
      ensures authorRepository.table == Remove(old(authorRepository.table), id)
    {
      authorRepository.DeleteById(id);
    }
  }

  /** A save that succeeds keeps the pseudonyms unique, and the new author is the only holder of its pseudonym. */
  lemma SaveKeepsPseudonymsUnique(t: Table<Author>, req: AuthorRequestDto.Dto)
    requires WellFormed(t) && AuthorsKeyed(t) && Unique(t, PseudonymOf)
    ensures Unique(SaveEffect(t, req).1, PseudonymOf)
    ensures SaveEffect(t, req).0.Ok? ==> Holders(SaveEffect(t, req).1, PseudonymOf, req.pseudonym) == {t.nextId}
  {
    if !Taken(t, PseudonymOf, req.pseudonym) {
      var e := AuthorRequestDto.MapRequestDtoToEntity(req).(id := t.nextId);
      assert PseudonymOf(e) == req.pseudonym;
      InsertFreshKey(t, PseudonymOf, e);
    }
  }

  /** Saving the same pseudonym twice: the second save is refused and leaves the table as the first left it. */
  lemma SecondSaveOfPseudonymFails(t: Table<Author>, first: AuthorRequestDto.Dto, second: AuthorRequestDto.Dto)
    requires WellFormed(t) && AuthorsKeyed(t)
    requires second.pseudonym == first.pseudonym
    ensures var u := SaveEffect(t, first).1;
      SaveEffect(u, second) == (Err(DataAlreadyExists(AuthorAlreadyExists)), u)
  {
    var u := SaveEffect(t, first).1;
    if !Taken(t, PseudonymOf, first.pseudonym) {
      assert PseudonymOf(u.rows[t.nextId]) == second.pseudonym;
    }
  }

  /** What a successful save returns is what findById then finds: the request's fields, the new id, no books. */
  lemma SaveThenFind(t: Table<Author>, req: AuthorRequestDto.Dto)
    requires WellFormed(t) && AuthorsKeyed(t) && !Taken(t, PseudonymOf, req.pseudonym)
    ensures var (r, u) := SaveEffect(t, req);
      && r.Ok? && r.value.id >= 1 && r.value.id !in t.rows
      && FindByIdResult(u, r.value.id)
         == Ok(AuthorFindResponseDto.Dto(r.value.id, req.firstName, req.middleName, req.lastName, req.pseudonym, []))
  {
  }

  /**
   * After an update, findById shows the request's fields under the same id, and the
   * author's books are the ones it had before; no other author changes.
   */
  lemma UpdateThenFind(t: Table<Author>, id: int, req: AuthorRequestDto.Dto, other: int)
    requires WellFormed(t) && AuthorsKeyed(t) && id in t.rows && other != id
    ensures var (r, u) := UpdateEffect(t, id, req);
      && FindByIdResult(u, id)
         == Ok(AuthorFindResponseDto.MapEntityToResponseDto(AuthorRequestDto.MapRequestDtoToEntityWithId(id, req).(books := t.rows[id].books)))
      && FindByIdResult(u, other) == FindByIdResult(t, other)
  {
  }

  /**
   * update does not re-check the pseudonym: two authors with distinct pseudonyms end up
   * sharing one when the first is updated to the second's.
   */
  lemma UpdateCanDuplicatePseudonym()
    ensures var t := Table(map[1 := NoAuthor.(id := 1, pseudonym := Some("A")),
                              2 := NoAuthor.(id := 2, pseudonym := Some("B"))], [1, 2], 3);
      && WellFormed(t) && AuthorsKeyed(t) && Unique(t, PseudonymOf)
      && !Unique(UpdateEffect(t, 1, AuthorRequestDto.Dto(None, None, None, Some("B"))).1, PseudonymOf)
  {
    var t := Table(map[1 := NoAuthor.(id := 1, pseudonym := Some("A")),
                       2 := NoAuthor.(id := 2, pseudonym := Some("B"))], [1, 2], 3);
    assert t.rows.Keys == {1, 2};
    var u := UpdateEffect(t, 1, AuthorRequestDto.Dto(None, None, None, Some("B"))).1;
    assert PseudonymOf(u.rows[1]) == PseudonymOf(u.rows[2]);
  }

  /** deleteById: afterwards findById reports DataNotFound, deleting again changes nothing, and no other author is touched. */
  lemma DeleteThenFind(t: Table<Author>, id: int, other: int)
    requires WellFormed(t) && other != id
    ensures FindByIdResult(Remove(t, id), id) == Err(DataNotFound(AuthorNotFound))
    ensures Remove(Remove(t, id), id) == Remove(t, id)
    ensures FindByIdResult(Remove(t, id), other) == FindByIdResult(t, other)
  {
    RemoveIsIdempotent(t, id);
  }
}
