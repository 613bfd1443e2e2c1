/** model/author/response/AuthorFindResponseDto.java: an author with its books, as found by id. */
module AuthorFindResponseDto {
  import opened Wrappers
  import opened Entities
  import Streams
  import BookOfAuthorResponseDto

  datatype Dto = Dto(
    id: int,
    firstName: Text,
    middleName: Text,
    lastName: Text,
    pseudonym: Text,
    books: seq<BookOfAuthorResponseDto.Dto>)

  /** mapEntityToResponseDto: the author's fields and its books in the reduced shape, in list order. */
  function MapEntityToResponseDto(a: Author): Dto {
    Dto(a.id, a.firstName, a.middleName, a.lastName, a.pseudonym,
        Streams.Map(BookOfAuthorResponseDto.MapEntityToResponseDto, a.books))
  }

  /** The books of the projection are those of the author, one for one and in the stored order. */
  lemma BooksInStoredOrder(a: Author)
    ensures |MapEntityToResponseDto(a).books| == |a.books|
    ensures forall i :: 0 <= i < |a.books| ==>
      var shown := MapEntityToResponseDto(a).books[i];
      shown.id == a.books[i].id && shown.title == a.books[i].title && shown.subtitle == a.books[i].subtitle
      && shown.publisher == a.books[i].publisher && shown.isbn13 == a.books[i].isbn13
  {
  }

  /** The book with its author list dropped: what the reduced shape keeps of a nested book. */
  function WithoutAuthors(b: Book): (c: Book)
    ensures c.authors == []
  {
    b.(authors := [])
  }

  /**
   * The authors of the nested books never reach the projection: cutting every
   * back-reference leaves it unchanged, so the projection of an author is finite
   * even when its books list that author again.
   */
  lemma IgnoresBackReferences(a: Author)
    ensures MapEntityToResponseDto(a.(books := Streams.Map(WithoutAuthors, a.books)))
         == MapEntityToResponseDto(a)
  {
    var cut := Streams.Map(WithoutAuthors, a.books);
    var lhs := Streams.Map(BookOfAuthorResponseDto.MapEntityToResponseDto, cut);
    var rhs := Streams.Map(BookOfAuthorResponseDto.MapEntityToResponseDto, a.books);
    forall i | 0 <= i < |a.books| ensures lhs[i] == rhs[i] {
      BookOfAuthorResponseDto.DependsOnlyOnKeptFields(cut[i], a.books[i]);
    }
  }
}
