/** model/response/BookResponseDTO.java: a book as returned by the null-returning book service. */
module BookResponseDTO {
  import opened Wrappers
  import opened Entities
  import BookRequestDTO

  datatype Dto = Dto(
    id: int,
    title: Text,
    author: Text,
    totalPages: int,
    publisher: Text,
    publishedDate: Option<LocalDate>,
    isbn: Text)

  /** entityToResponseDTO: the single-author fields and the single ISBN. */
  function EntityToResponseDTO(b: Book): Dto {
    Dto(b.id, b.title, b.author, b.totalPages, b.publisher, b.publishedDate, b.isbn)
  }

  /**
   * Composed with `BookRequestDTO.requestDTOtoEntity(id, r)`, the projection carries `id`
   * and r's title, author, page count, publisher and date. Its `isbn` is null: the
   * request mapping fills `isbn13`, and this projection reads the single `isbn`.
   */
  lemma ProjectionOfMappedRequest(id: int, r: BookRequestDTO.Dto)
    ensures EntityToResponseDTO(BookRequestDTO.RequestDTOtoEntityWithId(id, r))
         == Dto(id, r.title, r.author, r.totalPages, r.publisher, r.publishedDate, None)
  {
  }
}
