/** model/response/AuthorResponseDto.java: an author as returned by the null-returning author service. */
module AuthorResponseDto {
  import opened Wrappers
  import opened Entities
  import AuthorRequestDto

  datatype Dto = Dto(id: int, firstName: Text, middleName: Text, lastName: Text, pseudonym: Text)

  /** mapEntityToResponseDto: the id and the four name fields. */
  function MapEntityToResponseDto(a: Author): Dto {
    Dto(a.id, a.firstName, a.middleName, a.lastName, a.pseudonym)
  }

  /** Composed with the request mapping under `id`, the projection is `id` plus the request's four fields. */
  lemma ProjectionOfMappedRequest(id: int, r: AuthorRequestDto.Dto)
    ensures MapEntityToResponseDto(AuthorRequestDto.MapRequestDtoToEntityWithId(id, r))
         == Dto(id, r.firstName, r.middleName, r.lastName, r.pseudonym)
  {
  }
}
