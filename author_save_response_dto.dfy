/** model/author/response/AuthorSaveResponseDto.java: an author as returned after a save or an update. */
module AuthorSaveResponseDto {
  import opened Wrappers
  import opened Entities
  import AuthorRequestDto

  datatype Dto = Dto(id: int, firstName: Text, middleName: Text, lastName: Text, pseudonym: Text)

  /** mapEntityToResponseDto: the id and the four name fields. */
  function MapEntityToResponseDto(a: Author): Dto {
    Dto(a.id, a.firstName, a.middleName, a.lastName, a.pseudonym)
  }

  /** The book associations of the entity do not reach the projection. */
  lemma IgnoresBooks(a: Author, books: seq<Book>)
    ensures MapEntityToResponseDto(a.(books := books)) == MapEntityToResponseDto(a)
  {
  }

  /** Composed with the request mapping under `id`, the projection is `id` plus the request's four fields. */
  lemma ProjectionOfMappedRequest(id: int, r: AuthorRequestDto.Dto)
    ensures MapEntityToResponseDto(AuthorRequestDto.MapRequestDtoToEntityWithId(id, r))
         == Dto(id, r.firstName, r.middleName, r.lastName, r.pseudonym)
  {
  }
}
