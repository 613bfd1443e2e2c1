/** model/book/request/BookSaveRequestDto.java: the book request body of the newest services. */
module BookSaveRequestDto {
  import opened Wrappers
  import opened Entities
  import opened Constraints
  import Streams
  import AuthorOfBookRequestDto

  datatype Dto = Dto(
    title: Text,
    subtitle: Text,
    authors: Option<seq<AuthorOfBookRequestDto.Dto>>,
    totalPages: int,
    publisher: Text,
    publishedDate: Option<LocalDate>,
    isbn13: Text,
    isbn10: Text)

  /** The constraints declared on title and subtitle. */
  predicate ValidTitles(b: Dto) {
    NotBlank(b.title) && Size(b.title, 1, 255) && Size(b.subtitle, 1, 255)
  }

  /** @NotNull on the author list, and @Valid: every reference is valid. */
  predicate ValidAuthors(b: Dto) {
    NotNull(b.authors)
    && forall i :: 0 <= i < |b.authors.value| ==> AuthorOfBookRequestDto.Valid(b.authors.value[i])
  }

  /** The constraints declared on the page count, the publisher and the publication date. */
  predicate ValidEdition(b: Dto) {
    Positive(b.totalPages) && NotBlank(b.publisher) && Size(b.publisher, 1, 50) && NotNull(b.publishedDate)
  }

  /** The constraints declared on the two ISBNs. */
  predicate ValidIsbns(b: Dto) {
    NotBlank(b.isbn13) && Size(b.isbn13, 13, 13) && Size(b.isbn10, 10, 10)
  }

  /** Every constraint declared on the fields holds. */
  predicate Valid(b: Dto) {
    ValidTitles(b) && ValidAuthors(b) && ValidEdition(b) && ValidIsbns(b)
  }

  /** The violations reported for the author references, in list order. */
  function ReferenceViolations(refs: seq<AuthorOfBookRequestDto.Dto>): (v: set<string>)
    ensures v == {} <==> forall i :: 0 <= i < |refs| ==> AuthorOfBookRequestDto.Valid(refs[i])
  {
    if refs == [] then {}
    else AuthorOfBookRequestDto.Violations(refs[0]) + ReferenceViolations(refs[1..])
  }

  function TitleViolations(b: Dto): (v: set<string>)
    ensures v == {} <==> ValidTitles(b)
  {
    Check(NotBlank(b.title), "El campo título es obligatorio.")
    + Check(Size(b.title, 1, 255), "El campo título debe tener como máximo 255 caracteres.")
    + Check(Size(b.subtitle, 1, 255), "El campo subtítulo debe tener como máximo 255 caracteres.")
  }

  function AuthorViolations(b: Dto): (v: set<string>)
    ensures v == {} <==> ValidAuthors(b)
  {
    Check(NotNull(b.authors), "El campo autor(es) es obligatorio.")
    + (if b.authors.Some? then ReferenceViolations(b.authors.value) else {})
  }

  function EditionViolations(b: Dto): (v: set<string>)
    ensures v == {} <==> ValidEdition(b)
  {
    Check(Positive(b.totalPages), "El campo total de páginas debe ser un número positivo.")
    + Check(NotBlank(b.publisher), "El campo editorial es obligatorio.")
    + Check(Size(b.publisher, 1, 50), "El campo editorial debe tener como máximo 50 caracteres.")
    + Check(NotNull(b.publishedDate), "El campo fecha de publicación es obligatorio.")
  }

  function IsbnViolations(b: Dto): (v: set<string>)
    ensures v == {} <==> ValidIsbns(b)
  {
    Check(NotBlank(b.isbn13), "El campo ISBN-13 es obligatorio.")
    + Check(Size(b.isbn13, 13, 13), "El campo ISBN-13 debe tener 13 dígitos.")
    + Check(Size(b.isbn10, 10, 10), "El campo ISBN-10 debe tener 10 dígitos.")
  }

  /** The message of every declared constraint that `b` violates, cascading into the references. */
  function Violations(b: Dto): (v: set<string>)
    ensures v == {} <==> Valid(b)
  {
    TitleViolations(b) + AuthorViolations(b) + EditionViolations(b) + IsbnViolations(b)
  }

  /**
   * mapRequestDtoToEntity(book): a new book with no id whose authors are stubs made
   * from the references, in order. A null author list throws in the source (the
   * stream is taken from it), hence the precondition, which validation guarantees.
   */
  function MapRequestDtoToEntity(b: Dto): (e: Book)
    requires b.authors.Some?
    ensures e.id == UnsetId
    ensures e.title == b.title && e.subtitle == b.subtitle && e.totalPages == b.totalPages
    ensures e.publisher == b.publisher && e.publishedDate == b.publishedDate
    ensures e.isbn13 == b.isbn13 && e.isbn10 == b.isbn10
    ensures e.author.None? && e.isbn.None?
    ensures |e.authors| == |b.authors.value|
    ensures forall i :: 0 <= i < |e.authors| ==>
      e.authors[i] == AuthorOfBookRequestDto.MapRequestDtoToEntity(b.authors.value[i])
  {
    NoBook.(title := b.title, subtitle := b.subtitle,
            authors := Streams.Map(AuthorOfBookRequestDto.MapRequestDtoToEntity, b.authors.value),
            totalPages := b.totalPages, publisher := b.publisher,
            publishedDate := b.publishedDate, isbn13 := b.isbn13, isbn10 := b.isbn10)
  }

  /** mapRequestDtoToEntity(id, book): the same entity with the given id. */
  function MapRequestDtoToEntityWithId(id: int, b: Dto): (e: Book)
    requires b.authors.Some?
    ensures e.id == id
    ensures e.(id := UnsetId) == MapRequestDtoToEntity(b)
  {
    MapRequestDtoToEntity(b).(id := id)
  }

  /** A request that passes validation can be mapped: its author list is not null. */
  lemma ValidRequestIsMappable(b: Dto)
    requires Valid(b)
    ensures b.authors.Some?
    ensures forall i :: 0 <= i < |MapRequestDtoToEntity(b).authors| ==>
      MapRequestDtoToEntity(b).authors[i].id > 0
  {
  }
}
