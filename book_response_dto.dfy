/** model/book/response/BookResponseDto.java: a book as returned by the newest book service. */
module BookResponseDto {
  import opened Wrappers
  import opened Entities
  import Streams
  import AuthorOfBookRequestDto
  import AuthorOfBookResponseDto
  import BookSaveRequestDto

  datatype Dto = Dto(
    id: int,
    title: Text,
    subtitle: Text,
    authors: seq<AuthorOfBookResponseDto.Dto>,
    totalPages: int,
    publisher: Text,
    publishedDate: Option<LocalDate>,
    isbn13: Text,
    isbn10: Text)

  /** mapEntityToResponseDto: every book field, each author reduced to `{id, pseudonym}` in list order. */
  function MapEntityToResponseDto(b: Book): Dto {
    Dto(b.id, b.title, b.subtitle,
        Streams.Map(AuthorOfBookResponseDto.MapEntityToResponseDto, b.authors),
        b.totalPages, b.publisher, b.publishedDate, b.isbn13, b.isbn10)
  }

  /** The authors of the projection are those of the book, in the stored order, as `{id, pseudonym}`. */
  lemma AuthorsInStoredOrder(b: Book)
    ensures |MapEntityToResponseDto(b).authors| == |b.authors|
    ensures forall i :: 0 <= i < |b.authors| ==>
      MapEntityToResponseDto(b).authors[i] == AuthorOfBookResponseDto.Dto(b.authors[i].id, b.authors[i].pseudonym)
  {
  }

  /** The reference list of a request, as the projection of the mapped entity shows it. */
  function ReferencesShown(refs: seq<AuthorOfBookRequestDto.Dto>): (r: seq<AuthorOfBookResponseDto.Dto>)
    ensures |r| == |refs|
    ensures forall i :: 0 <= i < |refs| ==> r[i] == AuthorOfBookResponseDto.Dto(refs[i].id, refs[i].pseudonym)
  {
    Streams.Map((x: AuthorOfBookRequestDto.Dto) => AuthorOfBookResponseDto.Dto(x.id, x.pseudonym), refs)
  }

  /**
   * The projection of `BookSaveRequestDto.mapRequestDtoToEntity(id, r)` carries `id`,
   * every scalar field of `r`, and `r`'s author references in order.
   */
  lemma ProjectionOfMappedRequest(id: int, r: BookSaveRequestDto.Dto)
    requires r.authors.Some?
    ensures MapEntityToResponseDto(BookSaveRequestDto.MapRequestDtoToEntityWithId(id, r))
         == Dto(id, r.title, r.subtitle, ReferencesShown(r.authors.value), r.totalPages,
                r.publisher, r.publishedDate, r.isbn13, r.isbn10)
  {
    var e := BookSaveRequestDto.MapRequestDtoToEntityWithId(id, r);
    var shown := MapEntityToResponseDto(e).authors;
    assert |shown| == |ReferencesShown(r.authors.value)|;
    forall i | 0 <= i < |shown|
      ensures shown[i] == ReferencesShown(r.authors.value)[i]
    {
      AuthorOfBookResponseDto.ReferenceRoundTrip(r.authors.value[i]);
    }
  }
}
