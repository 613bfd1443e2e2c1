# Catalog service model (spring-boot-crud)

A Dafny model of the write and read logic of a small book-and-author catalog built on
Spring Boot. It covers three generations of the same feature, each kept as written:

- **service/impl** (newest): `IAuthorServiceImpl` and `IBookServiceImpl`. A missing row
  or a taken natural key is a `DataNotFoundException` / `DataAlreadyExistsException`,
  modelled as `Err(DataNotFound(msg))` / `Err(DataAlreadyExists(msg))` with the source's
  messages. The book listing is paged and carries page metadata.
- **services/impl** `IAuthorServiceImpl` and `IBookServiceImpl`: the same operations,
  answering null (`None`) instead of throwing.
- **services/impl/BookServiceImpl** (oldest): keys books on a single `isbn` and returns
  entities.

The request DTOs carry Jakarta constraints. Each DTO has a `Valid` predicate and a
`Violations` function that returns the set of declared messages. Each `Violations` is
proved empty exactly when `Valid` holds. The mappers between requests, entities and
responses are total functions. Their lemmas prove round trips, element order and the
fields each mapper ignores.

The JPA repositories become an in-memory `Table`: rows by id, ids in insertion order,
and the next value of the id sequence. `save` inserts an entity whose id is unset (0)
under the next id and merges any other entity under its own id. `deleteById` of an
absent id does nothing. Listings come in insertion order, which is ascending id order.
The classes `AuthorRepository` and `BookRepository` hold one table each. Each service is
a class holding its repository. Each service method is proved equal to a pure function of
the table before the call (`FindByIdResult`, `SaveEffect`, `UpdateEffect`, …). The lemmas
about those functions state what the services promise.

Entities are records with every field the code reads:
- `Author`: the names, the pseudonym and `books`.
- `Book`: title, subtitle, the single `author` string, the `authors` list, pages,
  publisher, date, `isbn13`, `isbn10` and the single `isbn`.

The entity classes as shipped declare fewer fields than the mappers and services read.
A Java `String` is `Option<string>` (null is `None`). An unset `long id` is 0.

Where the code and its description differ, the model follows the code:
- The newest author `findAll` takes a page request and returns a plain list. It does not
  return the data-plus-metadata wrapper that its interface and tests expect.
- The newest book `update` copies fields onto the loaded book, then saves a fresh mapping
  of the request under the path id. The stored result is therefore the request, author
  list included.
- The older `BookResponseDTO` reads the single `isbn`, which the older request mapping
  never sets. So every book that the older `IBookServiceImpl` saves or updates is answered
  with a null ISBN (`ServicesBook.SaveThenFind`).
- Neither `update` re-checks the natural key. Key uniqueness is proved for `save`. For
  `update`, a concrete two-row table shows uniqueness being lost
  (`ServiceAuthor.UpdateCanDuplicatePseudonym`, `ServicesIsbnBook.UpdateCanDuplicateIsbn`).

## Model

| member | source | states |
|---|---|---|
| AuthorRequestDto.Violations | src/main/java/com/alivro/spring/crud/model/request/AuthorRequestDto.java:16-29 | no message is reported exactly when first name, last name and pseudonym are non-blank and 1..100 long and the middle name is absent or 1..100 long |
| AuthorRequestDto.MapRequestDtoToEntity | src/main/java/com/alivro/spring/crud/model/request/AuthorRequestDto.java:37-44 | the entity carries the request's four fields unchanged (reading them back gives the request), has an unset id and no books |
| AuthorRequestDto.MapRequestDtoToEntityWithId | src/main/java/com/alivro/spring/crud/model/request/AuthorRequestDto.java:53-58 | the entity has the given id and otherwise equals the id-less mapping |
| AuthorOfBookRequestDto.Violations | src/main/java/com/alivro/spring/crud/model/book/request/AuthorOfBookRequestDto.java:16-20 | no message exactly when the id is positive and the pseudonym is absent or 1..100 long |
| AuthorOfBookRequestDto.MapRequestDtoToEntity | src/main/java/com/alivro/spring/crud/model/book/request/AuthorOfBookRequestDto.java:28-33 | the stub author has the reference's id and pseudonym, no names and no books |
| BookSaveRequestDto.TitleViolations | src/main/java/com/alivro/spring/crud/model/book/request/BookSaveRequestDto.java:25-30 | no message exactly when the title is non-blank and 1..255 long and the subtitle is absent or 1..255 long |
| BookSaveRequestDto.ReferenceViolations | src/main/java/com/alivro/spring/crud/model/book/request/BookSaveRequestDto.java:32-34 | no message exactly when every author reference in the list is itself valid (cascaded validation) |
| BookSaveRequestDto.AuthorViolations | src/main/java/com/alivro/spring/crud/model/book/request/BookSaveRequestDto.java:32-34 | no message exactly when the author list is present and each reference is valid |
| BookSaveRequestDto.EditionViolations | src/main/java/com/alivro/spring/crud/model/book/request/BookSaveRequestDto.java:36-45 | no message exactly when pages are positive, the publisher is non-blank and 1..50 long, and the date is present |
| BookSaveRequestDto.IsbnViolations | src/main/java/com/alivro/spring/crud/model/book/request/BookSaveRequestDto.java:47-52 | no message exactly when the ISBN-13 is non-blank and 13 long and the ISBN-10 is absent or 10 long |
| BookSaveRequestDto.Violations | src/main/java/com/alivro/spring/crud/model/book/request/BookSaveRequestDto.java:25-52 | no message exactly when every declared constraint of the request holds |
| BookSaveRequestDto.MapRequestDtoToEntity | src/main/java/com/alivro/spring/crud/model/book/request/BookSaveRequestDto.java:60-75 | the new book has an unset id and the request's seven scalar fields; its author list has the references' length and order, element i being the stub of reference i |
| BookSaveRequestDto.MapRequestDtoToEntityWithId | src/main/java/com/alivro/spring/crud/model/book/request/BookSaveRequestDto.java:84-89 | the book has the given id and otherwise equals the id-less mapping |
| BookSaveRequestDto.ValidRequestIsMappable | src/main/java/com/alivro/spring/crud/model/book/request/BookSaveRequestDto.java:32-34 | a valid request has an author list, and every stub mapped from it has a positive id |
| BookRequestDTO.NameViolations | src/main/java/com/alivro/spring/crud/model/request/BookRequestDTO.java:21-30 | no message exactly when the title is non-blank and 1..255 long, the subtitle absent or 1..255 long, and the author non-blank and 1..100 long |
| BookRequestDTO.EditionViolations | src/main/java/com/alivro/spring/crud/model/request/BookRequestDTO.java:32-48 | no message exactly when pages are positive, the publisher is non-blank and 1..50 long, the date is present, the ISBN-13 is non-blank and 13 long and the ISBN-10 absent or 10 long |
| BookRequestDTO.Violations | src/main/java/com/alivro/spring/crud/model/request/BookRequestDTO.java:21-48 | no message exactly when every declared constraint holds |
| BookRequestDTO.RequestDTOtoEntity | src/main/java/com/alivro/spring/crud/model/request/BookRequestDTO.java:70-81 | the book carries all eight request fields unchanged, has an unset id, no author list and no single ISBN |
| BookRequestDTO.RequestDTOtoEntityWithId | src/main/java/com/alivro/spring/crud/model/request/BookRequestDTO.java:57-62 | the book has the given id and otherwise equals the id-less mapping |
| BookRequest.Violations | src/main/java/com/alivro/spring/crud/model/request/BookRequest.java:21-39 | no message exactly when title, author and publisher are non-blank, pages positive, the date present and the ISBN non-blank and 13 long |
| BookResponseDto.AuthorsInStoredOrder | src/main/java/com/alivro/spring/crud/model/book/response/BookResponseDto.java:51-66 | the projected author list has the book's length and order, element i being {id, pseudonym} of author i |
| BookResponseDto.ProjectionOfMappedRequest | src/main/java/com/alivro/spring/crud/model/book/response/BookResponseDto.java:51-67 | projecting a request mapped under an id gives that id, every scalar field of the request and its references in order |
| AuthorOfBookResponseDto.IgnoresNamesAndBooks | src/main/java/com/alivro/spring/crud/model/book/response/AuthorOfBookResponseDto.java:26-31 | two authors with the same id and pseudonym project alike, whatever their names and books |
| AuthorOfBookResponseDto.ReferenceRoundTrip | src/main/java/com/alivro/spring/crud/model/book/response/AuthorOfBookResponseDto.java:26-31 | a reference mapped to a stub author and projected back comes back unchanged |
| AuthorFindResponseDto.BooksInStoredOrder | src/main/java/com/alivro/spring/crud/model/author/response/AuthorFindResponseDto.java:41-54 | the projected book list has the author's length and order, each entry carrying that book's id, title, subtitle, publisher and ISBN-13 |
| AuthorFindResponseDto.IgnoresBackReferences | src/main/java/com/alivro/spring/crud/model/author/response/AuthorFindResponseDto.java:41-54 | cutting every nested book's author list leaves the projection unchanged, so back-references never reach it |
| AuthorSaveResponseDto.IgnoresBooks | src/main/java/com/alivro/spring/crud/model/author/response/AuthorSaveResponseDto.java:35-43 | the projection does not depend on the author's books |
| AuthorSaveResponseDto.ProjectionOfMappedRequest | src/main/java/com/alivro/spring/crud/model/author/response/AuthorSaveResponseDto.java:35-43 | projecting a request mapped under an id gives that id and the request's four fields |
| BookOfAuthorResponseDto.DependsOnlyOnKeptFields | src/main/java/com/alivro/spring/crud/model/author/response/BookOfAuthorResponseDto.java:35-43 | books agreeing on id, title, subtitle, publisher and ISBN-13 project alike; authors, pages, date and ISBN-10 are dropped |
| AuthorResponseDto.ProjectionOfMappedRequest | src/main/java/com/alivro/spring/crud/model/response/AuthorResponseDto.java:35-43 | projecting a request mapped under an id gives that id and the request's four fields |
| BookResponseDTO.ProjectionOfMappedRequest | src/main/java/com/alivro/spring/crud/model/response/BookResponseDTO.java:37-47 | projecting an older request mapped under an id gives that id and the request's title, author, pages, publisher and date, with a null ISBN |
| Streams.Map | src/main/java/com/alivro/spring/crud/service/impl/IAuthorServiceImpl.java:47-49 | a stream map keeps the length and order, element i being f of element i |
| Paging.Slice | src/main/java/com/alivro/spring/crud/service/impl/IBookServiceImpl.java:46 | a page holds at most one page size of elements, as many as remain after the offset |
| Paging.TotalPages | src/main/java/com/alivro/spring/crud/service/impl/IBookServiceImpl.java:58 | the page count is the least n whose n pages hold all elements, and 0 exactly for no elements |
| Paging.MetadataOf | src/main/java/com/alivro/spring/crud/service/impl/IBookServiceImpl.java:54-60 | numberOfElements is the page's length, totalElements the listing's size, and totalPages covers it, 0 exactly when empty |
| Paging.FirstPagesArePrefix | src/main/java/com/alivro/spring/crud/service/impl/IBookServiceImpl.java:46 | pages 0..n-1 read in turn are the listing's first n·size elements |
| Paging.PagesCoverListing | src/main/java/com/alivro/spring/crud/service/impl/IBookServiceImpl.java:54-60 | reading pages 0..totalPages-1 yields the whole listing once, and their element counts add up to totalElements |
| Paging.PagesPastTheLastAreEmpty | src/main/java/com/alivro/spring/crud/service/impl/IBookServiceImpl.java:46 | a page at or past totalPages is empty |
| Repository.Listing | src/main/java/com/alivro/spring/crud/repository/AuthorRepository.java:8 | findAll lists every stored row once, in id order |
| Repository.ListingAfterInsert | src/main/java/com/alivro/spring/crud/repository/AuthorRepository.java:8 | a newly inserted row is listed after every row stored before |
| Repository.Insert | src/main/java/com/alivro/spring/crud/repository/AuthorRepository.java:8 | a new row takes the next, unused id; the table stays well formed |
| Repository.Remove | src/main/java/com/alivro/spring/crud/repository/AuthorRepository.java:8 | deleteById drops that id, if present, and nothing else; the table stays well formed |
| Repository.RemoveIsIdempotent | src/main/java/com/alivro/spring/crud/repository/AuthorRepository.java:8 | deleting an id twice is deleting it once |
| Repository.InsertFreshKey | src/main/java/com/alivro/spring/crud/repository/AuthorRepository.java:15 | inserting a row whose key nobody holds keeps keys unique, and the new row is the only holder of its key |
| Repository.SaveAuthor | src/main/java/com/alivro/spring/crud/repository/AuthorRepository.java:8 | save of an id-less author inserts it under the next id and returns it with that id; any other author is merged under its id |
| Repository.SaveBook | src/main/java/com/alivro/spring/crud/repository/BookRepository.java:8 | the same save rule for books |
| Repository.AuthorRepository.ExistsByPseudonym | src/main/java/com/alivro/spring/crud/repository/AuthorRepository.java:15 | true exactly when some stored author has that pseudonym |
| Repository.BookRepository.ExistsByIsbn13 | src/main/java/com/alivro/spring/crud/repository/BookRepository.java:15 | true exactly when some stored book has that ISBN-13 |
| Repository.BookRepository.ExistsByIsbn | src/main/java/com/alivro/spring/crud/services/impl/BookServiceImpl.java:119 | true exactly when some stored book has that ISBN |
| ServiceAuthor.FindAllResult | src/main/java/com/alivro/spring/crud/service/impl/IAuthorServiceImpl.java:42-49 | one projection per author on the requested page, in page order, at most one page size |
| ServiceAuthor.FindByIdResult | src/main/java/com/alivro/spring/crud/service/impl/IAuthorServiceImpl.java:59-71 | DataNotFound "Author not found!" exactly when the id is absent, otherwise the stored author with its books projected |
| ServiceAuthor.SaveEffect | src/main/java/com/alivro/spring/crud/service/impl/IAuthorServiceImpl.java:80-102 | a taken pseudonym gives DataAlreadyExists "Author already exists!" and an unchanged table; otherwise the request is stored under a previously unused id, which the answer echoes with the four fields |
| ServiceAuthor.WithRequestFields | src/main/java/com/alivro/spring/crud/service/impl/IAuthorServiceImpl.java:126-130 | the loaded author takes the request's four fields and keeps its id and books |
| ServiceAuthor.UpdateEffect | src/main/java/com/alivro/spring/crud/service/impl/IAuthorServiceImpl.java:112-138 | an absent id gives DataNotFound "Author does not exist!" and an unchanged table; otherwise only that author changes, to the request's fields with its id and books kept |
| ServiceAuthor.IAuthorServiceImpl.FindAll | src/main/java/com/alivro/spring/crud/service/impl/IAuthorServiceImpl.java:42-49 | answers FindAllResult of the current table |
| ServiceAuthor.IAuthorServiceImpl.FindById | src/main/java/com/alivro/spring/crud/service/impl/IAuthorServiceImpl.java:59-71 | answers FindByIdResult of the current table |
| ServiceAuthor.IAuthorServiceImpl.Save | src/main/java/com/alivro/spring/crud/service/impl/IAuthorServiceImpl.java:80-102 | answer and new table are SaveEffect of the old table |
| ServiceAuthor.IAuthorServiceImpl.Update | src/main/java/com/alivro/spring/crud/service/impl/IAuthorServiceImpl.java:112-138 | answer and new table are UpdateEffect of the old table |
| ServiceAuthor.IAuthorServiceImpl.DeleteById | src/main/java/com/alivro/spring/crud/service/impl/IAuthorServiceImpl.java:146-150 | the new table is the old one without that id |
| ServiceAuthor.SaveKeepsPseudonymsUnique | src/main/java/com/alivro/spring/crud/service/impl/IAuthorServiceImpl.java:86-101 | save keeps pseudonyms unique, and after a successful save the new author alone holds its pseudonym |
| ServiceAuthor.SecondSaveOfPseudonymFails | src/main/java/com/alivro/spring/crud/service/impl/IAuthorServiceImpl.java:86-91 | a second save of the same pseudonym fails with DataAlreadyExists and writes nothing |
| ServiceAuthor.SaveThenFind | src/main/java/com/alivro/spring/crud/service/impl/IAuthorServiceImpl.java:97-101 | after a save with a free pseudonym, findById of the returned new id finds the request's fields and no books |
| ServiceAuthor.UpdateThenFind | src/main/java/com/alivro/spring/crud/service/impl/IAuthorServiceImpl.java:126-137 | after an update, findById of the id shows the request's fields with the old books, and every other author is found as before |
| ServiceAuthor.UpdateCanDuplicatePseudonym | src/main/java/com/alivro/spring/crud/service/impl/IAuthorServiceImpl.java:112-138 | a table with unique pseudonyms loses uniqueness after one update |
| ServiceAuthor.DeleteThenFind | src/main/java/com/alivro/spring/crud/service/impl/IAuthorServiceImpl.java:146-150 | after deleteById, findById of that id is DataNotFound, a second delete changes nothing, other authors are found as before |
| ServiceBook.FindAllResult | src/main/java/com/alivro/spring/crud/service/impl/IBookServiceImpl.java:43-66 | data is one projection per book on the page, in page order; the metadata echoes page number and size, numberOfElements is the data length, totalElements the table size and totalPages its page count |
| ServiceBook.FindByIdResult | src/main/java/com/alivro/spring/crud/service/impl/IBookServiceImpl.java:75-87 | DataNotFound "Book not found!" exactly when the id is absent, otherwise the stored book projected |
| ServiceBook.SaveEffect | src/main/java/com/alivro/spring/crud/service/impl/IBookServiceImpl.java:96-118 | a taken ISBN-13 gives DataAlreadyExists "Book already exists!" and an unchanged table; otherwise the mapped request is stored under a previously unused id and answered |
| ServiceBook.UpdateEffect | src/main/java/com/alivro/spring/crud/service/impl/IBookServiceImpl.java:128-159 | an absent id gives DataNotFound "Book does not exist!" and an unchanged table; otherwise only that book changes, to the request mapped under the id, author list included |
| ServiceBook.IBookServiceImpl.FindAll | src/main/java/com/alivro/spring/crud/service/impl/IBookServiceImpl.java:43-66 | answers FindAllResult of the current table |
| ServiceBook.IBookServiceImpl.FindById | src/main/java/com/alivro/spring/crud/service/impl/IBookServiceImpl.java:75-87 | answers FindByIdResult of the current table |
| ServiceBook.IBookServiceImpl.Save | src/main/java/com/alivro/spring/crud/service/impl/IBookServiceImpl.java:96-118 | answer and new table are SaveEffect of the old table |
| ServiceBook.IBookServiceImpl.Update | src/main/java/com/alivro/spring/crud/service/impl/IBookServiceImpl.java:128-159 | answer and new table are UpdateEffect of the old table |
| ServiceBook.IBookServiceImpl.DeleteById | src/main/java/com/alivro/spring/crud/service/impl/IBookServiceImpl.java:167-171 | the new table is the old one without that id |
| ServiceBook.FindAllOfEmptyTable | src/main/java/com/alivro/spring/crud/service/impl/IBookServiceImpl.java:54-60 | an empty table gives no data, 0 elements and 0 pages |
| ServiceBook.DataOfFirstPagesIsMappedPrefix | src/main/java/com/alivro/spring/crud/service/impl/IBookServiceImpl.java:46-51 | the data of pages 0..n-1 read in turn is the projection of the listing's first n pages |
| ServiceBook.FindAllPagesCoverStore | src/main/java/com/alivro/spring/crud/service/impl/IBookServiceImpl.java:46-60 | reading findAll from page 0 to the reported totalPages yields every stored book once, in id order |
| ServiceBook.SaveKeepsIsbn13Unique | src/main/java/com/alivro/spring/crud/service/impl/IBookServiceImpl.java:102-117 | save keeps ISBN-13s unique, and after a successful save the new book alone holds its ISBN-13 |
| ServiceBook.SecondSaveOfIsbn13Fails | src/main/java/com/alivro/spring/crud/service/impl/IBookServiceImpl.java:102-107 | a second save of the same ISBN-13 fails with DataAlreadyExists and writes nothing |
| ServiceBook.SaveThenFind | src/main/java/com/alivro/spring/crud/service/impl/IBookServiceImpl.java:113-117 | after a save with a free ISBN-13, findById of the new id finds the request's fields and author references in order |
| ServiceBook.UpdateThenFind | src/main/java/com/alivro/spring/crud/service/impl/IBookServiceImpl.java:154-158 | after an update, findById shows the request's fields and references under the id, whatever the book held before; other books are unchanged |
| ServiceBook.DeleteThenFind | src/main/java/com/alivro/spring/crud/service/impl/IBookServiceImpl.java:167-171 | after deleteById, findById of that id is DataNotFound, a second delete changes nothing, other books are found as before |
| ServicesAuthor.FindAllResult | src/main/java/com/alivro/spring/crud/services/impl/IAuthorServiceImpl.java:37-45 | one projection per stored author, in id order |
| ServicesAuthor.FindByIdResult | src/main/java/com/alivro/spring/crud/services/impl/IAuthorServiceImpl.java:54-60 | null exactly when the id is absent, otherwise the stored author projected |
| ServicesAuthor.SaveEffect | src/main/java/com/alivro/spring/crud/services/impl/IAuthorServiceImpl.java:69-90 | a taken pseudonym gives null and an unchanged table; otherwise the request is stored under a previously unused id, which the answer echoes with the four fields |
| ServicesAuthor.UpdateEffect | src/main/java/com/alivro/spring/crud/services/impl/IAuthorServiceImpl.java:100-118 | an absent id gives null and an unchanged table; otherwise only that author changes, to the request mapped under the id |
| ServicesAuthor.IAuthorServiceImpl.FindAll | src/main/java/com/alivro/spring/crud/services/impl/IAuthorServiceImpl.java:37-45 | answers FindAllResult of the current table |
| ServicesAuthor.IAuthorServiceImpl.FindById | src/main/java/com/alivro/spring/crud/services/impl/IAuthorServiceImpl.java:54-60 | answers FindByIdResult of the current table |
| ServicesAuthor.IAuthorServiceImpl.Save | src/main/java/com/alivro/spring/crud/services/impl/IAuthorServiceImpl.java:69-90 | answer and new table are SaveEffect of the old table |
| ServicesAuthor.IAuthorServiceImpl.Update | src/main/java/com/alivro/spring/crud/services/impl/IAuthorServiceImpl.java:100-118 | answer and new table are UpdateEffect of the old table |
| ServicesAuthor.IAuthorServiceImpl.DeleteById | src/main/java/com/alivro/spring/crud/services/impl/IAuthorServiceImpl.java:126-130 | the new table is the old one without that id |
| ServicesAuthor.SaveKeepsPseudonymsUnique | src/main/java/com/alivro/spring/crud/services/impl/IAuthorServiceImpl.java:75-89 | save keeps pseudonyms unique, and after a successful save the new author alone holds its pseudonym |
| ServicesAuthor.FindAllAfterSave | src/main/java/com/alivro/spring/crud/services/impl/IAuthorServiceImpl.java:40-44 | after a successful save, findAll is the earlier findAll followed by the saved author's projection |
| ServicesAuthor.SaveThenFind | src/main/java/com/alivro/spring/crud/services/impl/IAuthorServiceImpl.java:85-89 | after a save with a free pseudonym, findById of the new id answers what save answered |
| ServicesAuthor.UpdateThenFind | src/main/java/com/alivro/spring/crud/services/impl/IAuthorServiceImpl.java:113-117 | after an update the author has the request's fields and no books, findById answers what update answered, other authors are unchanged |
| ServicesAuthor.DeleteThenFind | src/main/java/com/alivro/spring/crud/services/impl/IAuthorServiceImpl.java:126-130 | after deleteById, findById of that id is null, a second delete changes nothing, other authors are found as before |
| ServicesBook.FindByIdResult | src/main/java/com/alivro/spring/crud/services/impl/IBookServiceImpl.java:37-42 | null exactly when the id is absent, otherwise the stored book projected |
| ServicesBook.SaveEffect | src/main/java/com/alivro/spring/crud/services/impl/IBookServiceImpl.java:51-69 | a taken ISBN-13 gives null and an unchanged table; otherwise the mapped request is stored under a previously unused id and answered |
| ServicesBook.UpdateEffect | src/main/java/com/alivro/spring/crud/services/impl/IBookServiceImpl.java:79-96 | an absent id gives null and an unchanged table; otherwise only that book changes, to the request mapped under the id |
| ServicesBook.IBookServiceImpl.FindById | src/main/java/com/alivro/spring/crud/services/impl/IBookServiceImpl.java:37-42 | answers FindByIdResult of the current table |
| ServicesBook.IBookServiceImpl.Save | src/main/java/com/alivro/spring/crud/services/impl/IBookServiceImpl.java:51-69 | answer and new table are SaveEffect of the old table |
| ServicesBook.IBookServiceImpl.UpdateById | src/main/java/com/alivro/spring/crud/services/impl/IBookServiceImpl.java:79-96 | answer and new table are UpdateEffect of the old table |
| ServicesBook.IBookServiceImpl.DeleteById | src/main/java/com/alivro/spring/crud/services/impl/IBookServiceImpl.java:104-108 | the new table is the old one without that id |
| ServicesBook.SaveKeepsIsbn13Unique | src/main/java/com/alivro/spring/crud/services/impl/IBookServiceImpl.java:55-68 | save keeps ISBN-13s unique, and after a successful save the new book alone holds its ISBN-13 |
| ServicesBook.SaveThenFind | src/main/java/com/alivro/spring/crud/services/impl/IBookServiceImpl.java:64-68 | after a save with a free ISBN-13, findById of the new id answers the request's title, author, pages, publisher and date, with a null ISBN |
| ServicesBook.UpdateThenFind | src/main/java/com/alivro/spring/crud/services/impl/IBookServiceImpl.java:91-95 | after an update the book holds exactly the request's fields under the id, findById answers what update answered, other books are unchanged |
| ServicesBook.DeleteThenFind | src/main/java/com/alivro/spring/crud/services/impl/IBookServiceImpl.java:104-108 | after deleteById, findById of that id is null, a second delete changes nothing, other books are found as before |
| ServicesIsbnBook.BuildBook | src/main/java/com/alivro/spring/crud/services/impl/BookServiceImpl.java:59-66 | the built book carries the six request fields, an unset id and nothing else |
| ServicesIsbnBook.BuildBookWithId | src/main/java/com/alivro/spring/crud/services/impl/BookServiceImpl.java:87-95 | the built book has the given id and otherwise equals the id-less build |
| ServicesIsbnBook.SaveEffect | src/main/java/com/alivro/spring/crud/services/impl/BookServiceImpl.java:50-68 | a taken ISBN gives null and an unchanged table; otherwise the built book is stored and returned under a previously unused id |
| ServicesIsbnBook.UpdateEffect | src/main/java/com/alivro/spring/crud/services/impl/BookServiceImpl.java:78-97 | an absent id gives null and an unchanged table; otherwise only that book changes, to the request built under the id |
| ServicesIsbnBook.BookServiceImpl.FindById | src/main/java/com/alivro/spring/crud/services/impl/BookServiceImpl.java:38-41 | answers the stored book of that id, or nothing |
| ServicesIsbnBook.BookServiceImpl.Save | src/main/java/com/alivro/spring/crud/services/impl/BookServiceImpl.java:50-68 | answer and new table are SaveEffect of the old table |
| ServicesIsbnBook.BookServiceImpl.UpdateById | src/main/java/com/alivro/spring/crud/services/impl/BookServiceImpl.java:78-97 | answer and new table are UpdateEffect of the old table |
| ServicesIsbnBook.BookServiceImpl.DeleteById | src/main/java/com/alivro/spring/crud/services/impl/BookServiceImpl.java:106-109 | the new table is the old one without that id |
| ServicesIsbnBook.BookServiceImpl.ExistsByIsbn | src/main/java/com/alivro/spring/crud/services/impl/BookServiceImpl.java:117-120 | true exactly when some stored book has that ISBN |
| ServicesIsbnBook.SaveKeepsIsbnUnique | src/main/java/com/alivro/spring/crud/services/impl/BookServiceImpl.java:52-67 | save keeps ISBNs unique, and after a successful save the new book alone holds its ISBN |
| ServicesIsbnBook.SecondSaveOfIsbnFails | src/main/java/com/alivro/spring/crud/services/impl/BookServiceImpl.java:52-55 | a second save of the same ISBN answers null and writes nothing |
| ServicesIsbnBook.SaveThenFind | src/main/java/com/alivro/spring/crud/services/impl/BookServiceImpl.java:58-67 | after a save with a free ISBN, findById of the new id finds the returned book, which carries the request's fields |
| ServicesIsbnBook.UpdateCanDuplicateIsbn | src/main/java/com/alivro/spring/crud/services/impl/BookServiceImpl.java:78-97 | a table with unique ISBNs loses uniqueness after one update |
| ServicesIsbnBook.DeleteThenFind | src/main/java/com/alivro/spring/crud/services/impl/BookServiceImpl.java:106-109 | after deleteById the id is not found, a second delete changes nothing, other books are found as before |

## Left out

- Controllers, the response envelope and the exception-to-status handler are not part of this model. They only route HTTP and translate the error kinds that the model returns; the envelope timestamp also comes from the system clock.
- Logging calls are left out.
- Sorting by arbitrary fields is left out. Listings and pages are cut from the table in ascending id order, the order the book controller requests by default.
- Concurrency is left out. Each service call runs alone, so the race between the key check and the insert does not arise, and the database's own unique constraint is not modelled.
- JPA cascade, the join table and association symmetry are left out. A book's author list and an author's book list are plain values; the model does not keep the two in step.
- Validation follows the declared constraints only. `@NotBlank` means some character above U+0020, and `@Size` counts characters rather than UTF-16 code units.
- Dates are opaque values. Jackson's date format is not modelled.
- Java's 64-bit `long` ids and 32-bit `int` page counts are unbounded integers here, so overflow is not modelled.
- AuthorSaveRequestDto is not part of this model. It is taken to have the four fields of `AuthorRequestDto`, and the newest author service takes that type.
- Null elements inside a book request's author list are not modelled.
- Merging an entity under an id that no row holds is not modelled. Every service checks that the id exists before an update saves.
- Repository.SaveAuthor: requires the id to be unset or stored; that is how the services call it.
- Repository.SaveBook: requires the id to be unset or stored; that is how the services call it.
- ServiceBook.SaveEffect: requires a non-null author list. On a null list the source throws a NullPointerException while mapping; validation rules such a request out first.
- ServiceBook.UpdateEffect: requires a non-null author list, for the same reason.
- ServiceBook.IBookServiceImpl.Update: the seven setter calls on the loaded book are not repeated. The merge of the freshly mapped request that follows overwrites them.
