/** model/request/AuthorRequestDto.java: the author request body of the older services. */
module AuthorRequestDto {
  import opened Wrappers
  import opened Entities
  import opened Constraints

  datatype Dto = Dto(firstName: Text, middleName: Text, lastName: Text, pseudonym: Text)

  /** The constraints declared on the fields. */
  predicate Valid(a: Dto) {
    && NotBlank(a.firstName) && Size(a.firstName, 1, 100)
    && Size(a.middleName, 1, 100)
    && NotBlank(a.lastName) && Size(a.lastName, 1, 100)
    && NotBlank(a.pseudonym) && Size(a.pseudonym, 1, 100)
  }

  /** The message of every declared constraint that `a` violates. */
  function Violations(a: Dto): (v: set<string>)
    ensures v == {} <==> Valid(a)
  {
    Check(NotBlank(a.firstName), "El campo primer nombre es obligatorio.")
    + Check(Size(a.firstName, 1, 100), "El campo primer nombre debe tener como máximo 100 caracteres.")
    + Check(Size(a.middleName, 1, 100), "El campo segundo nombre debe tener como máximo 100 caracteres.")
    + Check(NotBlank(a.lastName), "El campo apellido es obligatorio.")
    + Check(Size(a.lastName, 1, 100), "El campo apellido debe tener como máximo 100 caracteres.")
    + Check(NotBlank(a.pseudonym), "El campo pseudónimo es obligatorio.")
    + Check(Size(a.pseudonym, 1, 100), "El campo pseudónimo debe tener como máximo 100 caracteres.")
  }

  /** The four request fields as stored in an entity. */
  function RequestOf(e: Author): Dto {
    Dto(e.firstName, e.middleName, e.lastName, e.pseudonym)
  }

  /** mapRequestDtoToEntity(author): a new author with no id and no books. */
  function MapRequestDtoToEntity(a: Dto): (e: Author)
    ensures RequestOf(e) == a
    ensures e.id == UnsetId && e.books == []
  {
    NoAuthor.(firstName := a.firstName, middleName := a.middleName,
              lastName := a.lastName, pseudonym := a.pseudonym)
  }

  /** mapRequestDtoToEntity(id, author): the same entity with the given id. */
  function MapRequestDtoToEntityWithId(id: int, a: Dto): (e: Author)
    ensures e.id == id
    ensures e.(id := UnsetId) == MapRequestDtoToEntity(a)
  {
    MapRequestDtoToEntity(a).(id := id)
  }
}
