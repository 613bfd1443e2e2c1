/** model/author/response/BookOfAuthorResponseDto.java: a book as shown inside an author. */
module BookOfAuthorResponseDto {
  import opened Wrappers
  import opened Entities

  datatype Dto = Dto(id: int, title: Text, subtitle: Text, publisher: Text, isbn13: Text)

  /** mapEntityToResponseDto: the reduced book shape, without the authors of the book. */
  function MapEntityToResponseDto(b: Book): Dto {
    Dto(b.id, b.title, b.subtitle, b.publisher, b.isbn13)
  }

  /** Two books that agree on the five kept fields have the same projection. */
  lemma DependsOnlyOnKeptFields(b: Book, c: Book)
    requires b.id == c.id && b.title == c.title && b.subtitle == c.subtitle
    requires b.publisher == c.publisher && b.isbn13 == c.isbn13
    ensures MapEntityToResponseDto(b) == MapEntityToResponseDto(c)
  {
  }
}
