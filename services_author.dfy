/**
 * services/impl/IAuthorServiceImpl.java: the author service of the older generation.
 * It reports a missing author or a taken pseudonym by returning null (`None`), and its
 * update replaces the whole stored author with the request mapped under the id.
 */
module ServicesAuthor {
  import opened Wrappers
  import opened Entities
  import opened Repository
  import Streams
  import AuthorRequestDto
  import AuthorResponseDto

  /** findAll(): every author projected, in ascending order of id. */
  function FindAllResult(t: Table<Author>): (r: seq<AuthorResponseDto.Dto>)
    requires WellFormed(t)
    ensures |r| == |t.rows|
    ensures forall i :: 0 <= i < |r| ==> r[i] == AuthorResponseDto.MapEntityToResponseDto(t.rows[t.order[i]])
  {
    Streams.Map(AuthorResponseDto.MapEntityToResponseDto, Listing(t))
  }

  /** findById(id): the author projected, or null. */
  function FindByIdResult(t: Table<Author>, id: int): (r: Option<AuthorResponseDto.Dto>)
    ensures r.None? <==> id !in t.rows
    ensures r.Some? ==> r.value == AuthorResponseDto.MapEntityToResponseDto(t.rows[id])
  {
    match Find(t, id)
    case None => None
    case Some(found) => Some(AuthorResponseDto.MapEntityToResponseDto(found))
  }

  /** save(author): null when the pseudonym is taken, the table unchanged; otherwise a new author under the next id. */
  function SaveEffect(t: Table<Author>, req: AuthorRequestDto.Dto)
    : (out: (Option<AuthorResponseDto.Dto>, Table<Author>))
    requires WellFormed(t) && AuthorsKeyed(t)
    ensures WellFormed(out.1) && AuthorsKeyed(out.1)
    ensures Taken(t, PseudonymOf, req.pseudonym) ==> out == (None, t)
    ensures !Taken(t, PseudonymOf, req.pseudonym) ==>
      && t.nextId !in t.rows
      && out.1.rows == t.rows[t.nextId := AuthorRequestDto.MapRequestDtoToEntityWithId(t.nextId, req)]
      && out.0 == Some(AuthorResponseDto.Dto(t.nextId, req.firstName, req.middleName, req.lastName, req.pseudonym))
  {
    if Taken(t, PseudonymOf, req.pseudonym) then
      (None, t)
    else
      var (u, saved) := SaveAuthor(t, AuthorRequestDto.MapRequestDtoToEntity(req));
      (Some(AuthorResponseDto.MapEntityToResponseDto(saved)), u)
  }

  /**
   * update(id, author): null when no author has that id; otherwise the stored author is
   * replaced by the request mapped under `id`, which has no books.
   */
  function UpdateEffect(t: Table<Author>, id: int, req: AuthorRequestDto.Dto)
    : (out: (Option<AuthorResponseDto.Dto>, Table<Author>))
    requires WellFormed(t) && AuthorsKeyed(t)
    ensures WellFormed(out.1) && AuthorsKeyed(out.1)
    ensures id !in t.rows ==> out == (None, t)
    ensures id in t.rows ==>
      && out.1.rows == t.rows[id := AuthorRequestDto.MapRequestDtoToEntityWithId(id, req)]
      && out.1.order == t.order && out.1.nextId == t.nextId
      && out.0 == Some(AuthorResponseDto.Dto(id, req.firstName, req.middleName, req.lastName, req.pseudonym))
  {
    if id !in t.rows then
      (None, t)
    else
      var (u, updated) := SaveAuthor(t, AuthorRequestDto.MapRequestDtoToEntityWithId(id, req));
      (Some(AuthorResponseDto.MapEntityToResponseDto(updated)), u)
  }

  class IAuthorServiceImpl {
    const authorRepository: AuthorRepository

    constructor (authorRepository: AuthorRepository)
      ensures this.authorRepository == authorRepository
    {
      this.authorRepository := authorRepository;
    }

    method FindAll() returns (r: seq<AuthorResponseDto.Dto>)
      requires authorRepository.Valid()
      ensures r == FindAllResult(authorRepository.table)
    {
      var foundAuthors := authorRepository.FindAll();
      r := Streams.Map(AuthorResponseDto.MapEntityToResponseDto, foundAuthors);
    }

    method FindById(id: int) returns (r: Option<AuthorResponseDto.Dto>)
      requires authorRepository.Valid()
      ensures r == FindByIdResult(authorRepository.table, id)
    {
      var foundAuthor := authorRepository.FindById(id);
      r := match foundAuthor
        case None => None
        case Some(a) => Some(AuthorResponseDto.MapEntityToResponseDto(a));
    }

    method Save(author: AuthorRequestDto.Dto) returns (r: Option<AuthorResponseDto.Dto>)
      requires authorRepository.Valid()
      modifies authorRepository
      ensures authorRepository.Valid()
      ensures (r, authorRepository.table) == SaveEffect(old(authorRepository.table), author)
    {
      var taken := authorRepository.ExistsByPseudonym(author.pseudonym);
      if taken {
        return None;
      }
      var saved := authorRepository.Save(AuthorRequestDto.MapRequestDtoToEntity(author));
      r := Some(AuthorResponseDto.MapEntityToResponseDto(saved));
    }

    method Update(id: int, author: AuthorRequestDto.Dto) returns (r: Option<AuthorResponseDto.Dto>)
      requires authorRepository.Valid()
      modifies authorRepository
      ensures authorRepository.Valid()
      ensures (r, authorRepository.table) == UpdateEffect(old(authorRepository.table), id, author)
    {
      var present := authorRepository.ExistsById(id);
      if !present {
        return None;
      }
      var updated := authorRepository.Save(AuthorRequestDto.MapRequestDtoToEntityWithId(id, author));
      r := Some(AuthorResponseDto.MapEntityToResponseDto(updated));
    }

    method DeleteById(id: int)
      requires authorRepository.Valid()
      modifies authorRepository
      ensures authorRepository.Valid()
      ensures authorRepository.table == Remove(old(authorRepository.table), id)
    {
      authorRepository.DeleteById(id);
    }
  }

  /** A save that succeeds keeps the pseudonyms unique, and the new author is the only holder of its pseudonym. */
  lemma SaveKeepsPseudonymsUnique(t: Table<Author>, req: AuthorRequestDto.Dto)
    requires WellFormed(t) && AuthorsKeyed(t) && Unique(t, PseudonymOf)
    ensures Unique(SaveEffect(t, req).1, PseudonymOf)
    ensures SaveEffect(t, req).0.Some? ==> Holders(SaveEffect(t, req).1, PseudonymOf, req.pseudonym) == {t.nextId}
  {
    if !Taken(t, PseudonymOf, req.pseudonym) {
      var e := AuthorRequestDto.MapRequestDtoToEntityWithId(t.nextId, req);
      assert PseudonymOf(e) == req.pseudonym;
      InsertFreshKey(t, PseudonymOf, e);
    }
  }

  /** A successful save adds its author at the end of findAll, after every author listed before. */
  lemma FindAllAfterSave(t: Table<Author>, req: AuthorRequestDto.Dto)
    requires WellFormed(t) && AuthorsKeyed(t) && !Taken(t, PseudonymOf, req.pseudonym)
    ensures var (r, u) := SaveEffect(t, req);
      r.Some? && FindAllResult(u) == FindAllResult(t) + [r.value]
  {
    var e := AuthorRequestDto.MapRequestDtoToEntity(req).(id := t.nextId);
    ListingAfterInsert(t, e);
    Streams.MapAppend(AuthorResponseDto.MapEntityToResponseDto, Listing(t), [e]);
  }

  /** What a successful save returns is what findById then finds under the new id. */
  lemma SaveThenFind(t: Table<Author>, req: AuthorRequestDto.Dto)
    requires WellFormed(t) && AuthorsKeyed(t) && !Taken(t, PseudonymOf, req.pseudonym)
    ensures var (r, u) := SaveEffect(t, req);
      && r.Some? && r.value.id >= 1 && r.value.id !in t.rows
      && FindByIdResult(u, r.value.id) == r
  {
  }

  /**
   * After an update, the stored author is exactly the request under the id: its books
   * are gone, and findById shows the request's fields; no other author changes.
   */
  lemma UpdateThenFind(t: Table<Author>, id: int, req: AuthorRequestDto.Dto, other: int)
    requires WellFormed(t) && AuthorsKeyed(t) && id in t.rows && other != id
    ensures var (r, u) := UpdateEffect(t, id, req);
      && u.rows[id].books == []
      && FindByIdResult(u, id) == r
      && r == Some(AuthorResponseDto.Dto(id, req.firstName, req.middleName, req.lastName, req.pseudonym))
      && FindByIdResult(u, other) == FindByIdResult(t, other)
  {
  }

  /** deleteById: afterwards findById returns null, deleting again changes nothing, and no other author is touched. */
  lemma DeleteThenFind(t: Table<Author>, id: int, other: int)
    requires WellFormed(t) && other != id
    ensures FindByIdResult(Remove(t, id), id).None?
    ensures Remove(Remove(t, id), id) == Remove(t, id)
    ensures FindByIdResult(Remove(t, id), other) == FindByIdResult(t, other)
  {
    RemoveIsIdempotent(t, id);
  }
}
