/** model/request/BookRequestDTO.java: the book request body of the null-returning book service. */
module BookRequestDTO {
  import opened Wrappers
  import opened Entities
  import opened Constraints

  datatype Dto = Dto(
    title: Text,
    subtitle: Text,
    author: Text,
    totalPages: int,
    publisher: Text,
    publishedDate: Option<LocalDate>,
    isbn13: Text,
    isbn10: Text)

  /** The constraints declared on title, subtitle and author. */
  predicate ValidNames(b: Dto) {
    && NotBlank(b.title) && Size(b.title, 1, 255)
    && Size(b.subtitle, 1, 255)
    && NotBlank(b.author) && Size(b.author, 1, 100)
  }

  /** The constraints declared on the page count, the publisher, the date and the ISBNs. */
  predicate ValidEdition(b: Dto) {
    && Positive(b.totalPages)
    && NotBlank(b.publisher) && Size(b.publisher, 1, 50)
    && NotNull(b.publishedDate)
    && NotBlank(b.isbn13) && Size(b.isbn13, 13, 13)
    && Size(b.isbn10, 10, 10)
  }

  /** Every constraint declared on the fields holds. */
  predicate Valid(b: Dto) {
    ValidNames(b) && ValidEdition(b)
  }

  function NameViolations(b: Dto): (v: set<string>)
    ensures v == {} <==> ValidNames(b)
  {
    Check(NotBlank(b.title), "El campo título es obligatorio.")
    + Check(Size(b.title, 1, 255), "El campo título debe tener como máximo 255 caracteres.")
    + Check(Size(b.subtitle, 1, 255), "El campo subtítulo debe tener como máximo 255 caracteres.")
    + Check(NotBlank(b.author), "El campo autor es obligatorio.")
    + Check(Size(b.author, 1, 100), "El campo autor debe tener como máximo 100 caracteres.")
  }

  function EditionViolations(b: Dto): (v: set<string>)
    ensures v == {} <==> ValidEdition(b)
  {
    Check(Positive(b.totalPages), "El campo total de páginas debe ser un número positivo.")
    + Check(NotBlank(b.publisher), "El campo editorial es obligatorio.")
    + Check(Size(b.publisher, 1, 50), "El campo editorial debe tener como máximo 50 caracteres.")
    + Check(NotNull(b.publishedDate), "El campo fecha de publicación es obligatorio.")
    + Check(NotBlank(b.isbn13), "El campo ISBN-13 es obligatorio.")
    + Check(Size(b.isbn13, 13, 13), "El campo ISBN-13 debe tener 13 dígitos.")
    + Check(Size(b.isbn10, 10, 10), "El campo ISBN-10 debe tener 10 dígitos.")
  }

  /** The message of every declared constraint that `b` violates. */
  function Violations(b: Dto): (v: set<string>)
    ensures v == {} <==> Valid(b)
  {
    NameViolations(b) + EditionViolations(b)
  }

  /** The request fields as stored in an entity. */
  function RequestOf(e: Book): Dto {
    Dto(e.title, e.subtitle, e.author, e.totalPages, e.publisher, e.publishedDate, e.isbn13, e.isbn10)
  }

  /** requestDTOtoEntity(book): a new book with no id, no author list and no single ISBN. */
  function RequestDTOtoEntity(b: Dto): (e: Book)
    ensures RequestOf(e) == b
    ensures e.id == UnsetId && e.authors == [] && e.isbn.None?
  {
    NoBook.(title := b.title, subtitle := b.subtitle, author := b.author,
            totalPages := b.totalPages, publisher := b.publisher,
            publishedDate := b.publishedDate, isbn13 := b.isbn13, isbn10 := b.isbn10)
  }

  /** requestDTOtoEntity(id, book): the same entity with the given id. */
  function RequestDTOtoEntityWithId(id: int, b: Dto): (e: Book)
    ensures e.id == id
    ensures e.(id := UnsetId) == RequestDTOtoEntity(b)
  {
    RequestDTOtoEntity(b).(id := id)
  }
}
