/** model/book/request/AuthorOfBookRequestDto.java: a reference to an author inside a book request. */
module AuthorOfBookRequestDto {
  import opened Wrappers
  import opened Entities
  import opened Constraints

  datatype Dto = Dto(id: int, pseudonym: Text)

  /** The constraints declared on the fields. */
  predicate Valid(r: Dto) {
    Positive(r.id) && Size(r.pseudonym, 1, 100)
  }

  /** The message of every declared constraint that `r` violates. */
  function Violations(r: Dto): (v: set<string>)
    ensures v == {} <==> Valid(r)
  {
    Check(Positive(r.id), "El campo id debe ser un número positivo.")
    + Check(Size(r.pseudonym, 1, 100), "El campo pseudónimo debe tener como máximo 100 caracteres.")
  }

  /** mapRequestDtoToEntity: an author stub that carries only the id and the pseudonym. */
  function MapRequestDtoToEntity(r: Dto): (e: Author)
    ensures e.id == r.id && e.pseudonym == r.pseudonym
    ensures e.firstName.None? && e.middleName.None? && e.lastName.None? && e.books == []
  {
    NoAuthor.(id := r.id, pseudonym := r.pseudonym)
  }
}
