/**
 * The Spring Data JPA repositories (AuthorRepository, BookRepository) as an
 * in-memory store. A table keeps its rows by id, the ids in insertion order and
 * the next value of the id sequence (allocation size 1, starting at 1), so the
 * insertion order is also the ascending order of ids, the default sort of listings.
 */
module Repository {
  import opened Wrappers
  import opened Entities
  import Paging

  datatype Table<E> = Table(rows: map<int, E>, order: seq<int>, nextId: int)

  /** Strictly ascending, hence without repetitions. */
  predicate Ascending(s: seq<int>) {
    forall i, j :: 0 <= i < j < |s| ==> s[i] < s[j]
  }

  /**
   * Every id was handed out by the sequence, and `order` lists each row exactly once,
   * in ascending order.
   */
  predicate WellFormed<E>(t: Table<E>) {
    && t.nextId >= 1
    && (forall id :: id in t.rows ==> 1 <= id < t.nextId)
    && (forall i :: 0 <= i < |t.order| ==> t.order[i] in t.rows)
    && (forall id :: id in t.rows ==> id in t.order)
    && Ascending(t.order)
    && |t.order| == |t.rows|
  }

  /** The empty table of a fresh database. */
  function Empty<E>(): (t: Table<E>)
    ensures WellFormed(t) && t.rows == map[]
  {
    Table(map[], [], 1)
  }

  /** findById. */
  function Find<E>(t: Table<E>, id: int): (r: Option<E>)
    ensures r.Some? <==> id in t.rows
    ensures r.Some? ==> r.value == t.rows[id]
  {
    if id in t.rows then Some(t.rows[id]) else None
  }

  /** The rows at the given ids, in that order. */
  function RowsAt<E>(rows: map<int, E>, ids: seq<int>): (r: seq<E>)
    requires forall i :: 0 <= i < |ids| ==> ids[i] in rows
    ensures |r| == |ids|
    ensures forall i :: 0 <= i < |ids| ==> r[i] == rows[ids[i]]
  {
    seq(|ids|, i requires 0 <= i < |ids| => rows[ids[i]])
  }

  /** findAll(): every row, in ascending order of id. */
  function Listing<E>(t: Table<E>): (all: seq<E>)
    requires WellFormed(t)
    ensures |all| == |t.rows|
    ensures forall i :: 0 <= i < |all| ==> all[i] == t.rows[t.order[i]]
  {
    RowsAt(t.rows, t.order)
  }

  /** A new row is listed last, after every row that was there before. */
  lemma ListingAfterInsert<E>(t: Table<E>, row: E)
    requires WellFormed(t)
    ensures Listing(Insert(t, row)) == Listing(t) + [row]
  {
    var u := Insert(t, row);
    assert |Listing(u)| == |Listing(t) + [row]|;
    forall i | 0 <= i < |Listing(u)| ensures Listing(u)[i] == (Listing(t) + [row])[i] {
      if i < |t.order| {
        assert u.order[i] == t.order[i] != t.nextId;
      }
    }
  }

  /** `s` with every occurrence of `x` removed. */
  function Without(s: seq<int>, x: int): (r: seq<int>)
    ensures forall y :: y in r <==> y in s && y != x
    ensures Ascending(s) ==> Ascending(r)
    ensures Ascending(s) ==> |r| == if x in s then |s| - 1 else |s|
  {
    if s == [] then []
    else if s[0] == x then Without(s[1..], x)
    else
      var rest := Without(s[1..], x);
      var r := [s[0]] + rest;
      assert Ascending(s) ==> Ascending(r) by {
        if Ascending(s) {
          assert Ascending(s[1..]);
          forall i, j | 0 <= i < j < |r| ensures r[i] < r[j] {
            assert r[j] == rest[j - 1] && rest[j - 1] in rest;
            var k :| 0 <= k < |s[1..]| && s[1..][k] == r[j];
            if i > 0 {
              assert r[i] == rest[i - 1];
            }
          }
        }
      }
      r
  }

  /** Removing an absent element changes nothing. */
  lemma {:induction false} WithoutAbsent(s: seq<int>, x: int)
    requires x !in s
    ensures Without(s, x) == s
  {
    if s != [] {
      WithoutAbsent(s[1..], x);
    }
  }

  /** A new row takes the next id of the sequence and goes to the end of the order. */
  function Insert<E>(t: Table<E>, row: E): (u: Table<E>)
    requires WellFormed(t)
    ensures WellFormed(u)
    ensures t.nextId !in t.rows && u.rows == t.rows[t.nextId := row]
    ensures u.order == t.order + [t.nextId] && u.nextId == t.nextId + 1
  {
    var u := Table(t.rows[t.nextId := row], t.order + [t.nextId], t.nextId + 1);
    assert t.nextId !in t.rows;
    assert u.rows.Keys == t.rows.Keys + {t.nextId};
    u
  }

  /** JPA merge of a row whose id is already stored: the row is replaced, nothing else moves. */
  function Merge<E>(t: Table<E>, id: int, row: E): (u: Table<E>)
    requires WellFormed(t) && id in t.rows
    ensures WellFormed(u)
    ensures u.rows == t.rows[id := row] && u.order == t.order && u.nextId == t.nextId
  {
    var u := Table(t.rows[id := row], t.order, t.nextId);
    assert u.rows.Keys == t.rows.Keys;
    u
  }

  /** deleteById: the row goes if it is there; an absent id is not an error. */
  function Remove<E>(t: Table<E>, id: int): (u: Table<E>)
    requires WellFormed(t)
    ensures WellFormed(u)
    ensures u.rows == t.rows - {id} && u.nextId == t.nextId
  {
    RemoveWellFormed(t, id);
    Table(t.rows - {id}, Without(t.order, id), t.nextId)
  }

  lemma RemoveWellFormed<E>(t: Table<E>, id: int)
    requires WellFormed(t)
    ensures WellFormed(Table(t.rows - {id}, Without(t.order, id), t.nextId))
  {
    var u := Table(t.rows - {id}, Without(t.order, id), t.nextId);
    forall i | 0 <= i < |u.order| ensures u.order[i] in u.rows {
      assert u.order[i] in u.order;
    }
    if id in t.rows {
      assert (t.rows - {id}).Keys + {id} == t.rows.Keys;
      assert |(t.rows - {id}).Keys| == |t.rows.Keys| - 1;
    } else {
      assert t.rows - {id} == t.rows;
    }
  }

  /** Deleting twice is deleting once. */
  lemma RemoveIsIdempotent<E>(t: Table<E>, id: int)
    requires WellFormed(t)
    ensures Remove(Remove(t, id), id) == Remove(t, id)
  {
    WithoutAbsent(Without(t.order, id), id);
    assert (t.rows - {id}) - {id} == t.rows - {id};
  }

  /** Some stored row has key `k` (a derived `existsBy<Key>` query). */
  predicate Taken<E>(t: Table<E>, key: E -> Text, k: Text) {
    exists id :: id in t.rows && key(t.rows[id]) == k
  }

  /** The ids of the rows whose key is `k`. */
  function Holders<E>(t: Table<E>, key: E -> Text, k: Text): set<int> {
    set id | id in t.rows && key(t.rows[id]) == k
  }

  /** No two rows share a key (the natural-key constraint of the table). */
  predicate Unique<E>(t: Table<E>, key: E -> Text) {
    forall i, j :: i in t.rows && j in t.rows && i != j ==> key(t.rows[i]) != key(t.rows[j])
  }

  /** Inserting a row whose key is not taken keeps the keys unique, and only the new row holds that key. */
  lemma InsertFreshKey<E>(t: Table<E>, key: E -> Text, row: E)
    requires WellFormed(t) && Unique(t, key) && !Taken(t, key, key(row))
    ensures Unique(Insert(t, row), key)
    ensures Holders(Insert(t, row), key, key(row)) == {t.nextId}
  {
    var u := Insert(t, row);
    forall i, j | i in u.rows && j in u.rows && i != j
      ensures key(u.rows[i]) != key(u.rows[j])
    {
      if i == t.nextId {
        assert key(t.rows[j]) != key(row);
      } else if j == t.nextId {
        assert key(t.rows[i]) != key(row);
      }
    }
  }

  /** The id each author row is stored under is its own id field. */
  predicate AuthorsKeyed(t: Table<Author>) {
    forall id :: id in t.rows ==> t.rows[id].id == id
  }

  /** The id each book row is stored under is its own id field. */
  predicate BooksKeyed(t: Table<Book>) {
    forall id :: id in t.rows ==> t.rows[id].id == id
  }

  function PseudonymOf(a: Author): Text { a.pseudonym }
  function Isbn13Of(b: Book): Text { b.isbn13 }
  function IsbnOf(b: Book): Text { b.isbn }

  /**
   * save(author): an author whose id is unset is new and is stored under the next id of
   * the sequence, which the returned entity carries; any other author is merged under its id.
   */
  function SaveAuthor(t: Table<Author>, a: Author): (out: (Table<Author>, Author))
    requires WellFormed(t) && AuthorsKeyed(t)
    requires a.id == UnsetId || a.id in t.rows
    ensures WellFormed(out.0) && AuthorsKeyed(out.0)
    ensures a.id == UnsetId ==> out == (Insert(t, a.(id := t.nextId)), a.(id := t.nextId))
    ensures a.id != UnsetId ==> out == (Merge(t, a.id, a), a)
  {
    if a.id == UnsetId then
      var saved := a.(id := t.nextId);
      (Insert(t, saved), saved)
    else
      (Merge(t, a.id, a), a)
  }

  /** save(book), with the same rule as `SaveAuthor`. */
  function SaveBook(t: Table<Book>, b: Book): (out: (Table<Book>, Book))
    requires WellFormed(t) && BooksKeyed(t)
    requires b.id == UnsetId || b.id in t.rows
    ensures WellFormed(out.0) && BooksKeyed(out.0)
    ensures b.id == UnsetId ==> out == (Insert(t, b.(id := t.nextId)), b.(id := t.nextId))
    ensures b.id != UnsetId ==> out == (Merge(t, b.id, b), b)
  {
    if b.id == UnsetId then
      var saved := b.(id := t.nextId);
      (Insert(t, saved), saved)
    else
      (Merge(t, b.id, b), b)
  }

  /** AuthorRepository: the author table of the database. */
  class AuthorRepository {
    var table: Table<Author>

    ghost predicate Valid()
      reads this
    {
      WellFormed(table) && AuthorsKeyed(table)
    }

    constructor ()
      ensures Valid() && table == Empty()
    {
      table := Empty();
    }

    method FindById(id: int) returns (found: Option<Author>)
      requires Valid()
      ensures found == Find(table, id)
    {
      found := if id in table.rows then Some(table.rows[id]) else None;
    }

    method ExistsById(id: int) returns (exists_: bool)
      requires Valid()
      ensures exists_ <==> id in table.rows
    {
      exists_ := id in table.rows;
    }

    method ExistsByPseudonym(pseudonym: Text) returns (exists_: bool)
      requires Valid()
      ensures exists_ <==> Taken(table, PseudonymOf, pseudonym)
    {
      exists_ := exists id :: id in table.rows && table.rows[id].pseudonym == pseudonym;
    }

    method FindAll() returns (all: seq<Author>)
      requires Valid()
      ensures all == Listing(table)
    {
      all := Listing(table);
    }

    method FindAllPage(pageable: Paging.Pageable) returns (page: Paging.Page<Author>)
      requires Valid()
      ensures page == Paging.PageOf(Listing(table), pageable)
    {
      page := Paging.PageOf(Listing(table), pageable);
    }

    method Save(a: Author) returns (saved: Author)
      requires Valid()
      requires a.id == UnsetId || a.id in table.rows
      modifies this
      ensures Valid()
      ensures (table, saved) == SaveAuthor(old(table), a)
    {
      table, saved := SaveAuthor(table, a).0, SaveAuthor(table, a).1;
    }

    method DeleteById(id: int)
      requires Valid()
      modifies this
      ensures Valid()
      ensures table == Remove(old(table), id)
    {
      table := Remove(table, id);
    }
  }

  /** BookRepository: the book table of the database. */
  class BookRepository {
    var table: Table<Book>

    ghost predicate Valid()
      reads this
    {
      WellFormed(table) && BooksKeyed(table)
    }

    constructor ()
      ensures Valid() && table == Empty()
    {
      table := Empty();
    }

    method FindById(id: int) returns (found: Option<Book>)
      requires Valid()
      ensures found == Find(table, id)
    {
      found := if id in table.rows then Some(table.rows[id]) else None;
    }

    method ExistsById(id: int) returns (exists_: bool)
      requires Valid()
      ensures exists_ <==> id in table.rows
    {
      exists_ := id in table.rows;
    }

    method ExistsByIsbn13(isbn13: Text) returns (exists_: bool)
      requires Valid()
      ensures exists_ <==> Taken(table, Isbn13Of, isbn13)
    {
      exists_ := exists id :: id in table.rows && table.rows[id].isbn13 == isbn13;
    }

    method ExistsByIsbn(isbn: Text) returns (exists_: bool)
      requires Valid()
      ensures exists_ <==> Taken(table, IsbnOf, isbn)
    {
      exists_ := exists id :: id in table.rows && table.rows[id].isbn == isbn;
    }

    method FindAllPage(pageable: Paging.Pageable) returns (page: Paging.Page<Book>)
      requires Valid()
      ensures page == Paging.PageOf(Listing(table), pageable)
    {
      page := Paging.PageOf(Listing(table), pageable);
    }

    method Save(b: Book) returns (saved: Book)
      requires Valid()
      requires b.id == UnsetId || b.id in table.rows
      modifies this
      ensures Valid()
      ensures (table, saved) == SaveBook(old(table), b)
    {
      table, saved := SaveBook(table, b).0, SaveBook(table, b).1;
    }

    method DeleteById(id: int)
      requires Valid()
      modifies this
      ensures Valid()
      ensures table == Remove(old(table), id)
    {
      table := Remove(table, id);
    }
  }
}
