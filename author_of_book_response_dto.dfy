/** model/book/response/AuthorOfBookResponseDto.java: an author as shown inside a book. */
module AuthorOfBookResponseDto {
  import opened Wrappers
  import opened Entities
  import AuthorOfBookRequestDto

  datatype Dto = Dto(id: int, pseudonym: Text)

  /** mapEntityToResponseDto: keeps the id and the pseudonym only. */
  function MapEntityToResponseDto(a: Author): Dto {
    Dto(a.id, a.pseudonym)
  }

  /** The names and the books of the author do not reach the projection. */
  lemma IgnoresNamesAndBooks(a: Author, b: Author)
    requires a.id == b.id && a.pseudonym == b.pseudonym
    ensures MapEntityToResponseDto(a) == MapEntityToResponseDto(b)
  {
  }

  /** A reference `{id, pseudonym}` of a book request comes back unchanged through its stub. */
  lemma ReferenceRoundTrip(r: AuthorOfBookRequestDto.Dto)
    ensures MapEntityToResponseDto(AuthorOfBookRequestDto.MapRequestDtoToEntity(r)) == Dto(r.id, r.pseudonym)
  {
  }
}
