/**
 * The JPA entities `Author` and `Book`. Each record carries every field that some
 * generation of the services or mappers reads, so the three generations of the
 * catalog can share one store.
 */
module Entities {
  import opened Wrappers

  /** A Java `String` field, which may be null. */
  type Text = Option<string>

  /** `java.time.LocalDate`, kept as an opaque value: nothing here computes with dates. */
  datatype LocalDate = LocalDate(year: int, month: int, day: int)

  /** The value of a primitive `long id` that no builder call has set. */
  const UnsetId: int := 0

  datatype Author = Author(
    id: int,
    firstName: Text,
    middleName: Text,
    lastName: Text,
    pseudonym: Text,
    books: seq<Book>)        // many-to-many side; a list the builder leaves unset is empty

  datatype Book = Book(
    id: int,
    title: Text,
    subtitle: Text,
    author: Text,            // single author name of the older generations
    authors: seq<Author>,    // many-to-many side of the newest generation
    totalPages: int,
    publisher: Text,
    publishedDate: Option<LocalDate>,
    isbn13: Text,
    isbn10: Text,
    isbn: Text)              // the single ISBN of the oldest generation

  /** `Author.builder().build()`: every field unset. */
  const NoAuthor: Author := Author(UnsetId, None, None, None, None, [])

  /** `Book.builder().build()`: every field unset. */
  const NoBook: Book := Book(UnsetId, None, None, None, [], 0, None, None, None, None, None)
}
