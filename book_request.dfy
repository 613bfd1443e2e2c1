/** model/request/BookRequest.java: the book request body of the oldest book service. */
module BookRequest {
  import opened Wrappers
  import opened Entities
  import opened Constraints

  datatype Dto = Dto(
    title: Text,
    author: Text,
    totalPages: int,
    publisher: Text,
    publishedDate: Option<LocalDate>,
    isbn: Text)

  /** Every constraint declared on the fields holds. */
  predicate Valid(b: Dto) {
    && NotBlank(b.title)
    && NotBlank(b.author)
    && Positive(b.totalPages)
    && NotBlank(b.publisher)
    && NotNull(b.publishedDate)
    && NotBlank(b.isbn) && Size(b.isbn, 13, 13)
  }

  /** The message of every declared constraint that `b` violates. */
  function Violations(b: Dto): (v: set<string>)
    ensures v == {} <==> Valid(b)
  {
    Check(NotBlank(b.title), "El campo título es obligatorio.")
    + Check(NotBlank(b.author), "El campo autor es obligatorio.")
    + Check(Positive(b.totalPages), "El campo total de páginas debe ser un número positivo.")
    + Check(NotBlank(b.publisher), "El campo editorial es obligatorio.")
    + Check(NotNull(b.publishedDate), "El campo fecha de publicación es obligatorio.")
    + Check(NotBlank(b.isbn), "El campo ISBN es obligatorio.")
    + Check(Size(b.isbn, 13, 13), "El campo ISBN debe tener 13 caracteres.")
  }
}
