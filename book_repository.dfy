/** The catalog store: an id -> Book table with generated ids, following
    the contract of a JPA repository (`existsByIsbn` plus the inherited
    `save`, `findById` and `delete`). */
module Repository {
  import opened Domain

  class BookRepository {
    /** The persisted books, keyed by their id. */
    var rows: map<int, Book>
    /** The id the next inserted book receives. */
    var nextId: int

    /** Every stored book carries its own key as id, and every key was
        handed out before `nextId`. */
    ghost predicate Valid()
      reads this
    {
      && 1 <= nextId
      && forall id :: id in rows ==> rows[id].id == Some(id) && 1 <= id < nextId
    }

    /** An empty table; generated ids start at 1. */
    constructor ()
      ensures Valid()
      ensures rows == map[] && nextId == 1
    {
      rows := map[];
      nextId := 1;
    }

    /** Whether some persisted book carries `isbn`. */
    predicate ExistsByIsbn(isbn: string): (b: bool)
      reads this
      ensures b <==> exists id :: id in rows && rows[id].isbn == isbn
    {
      IsbnIn(rows, isbn)
    }

    /** Lookup by id: absence is an empty result, not an error. */
    function FindById(id: int): (r: Option<Book>)
      reads this
      ensures r.Some? <==> id in rows
      ensures r.Some? ==> r.value == rows[id]
      ensures Valid() && r.Some? ==> r.value.id == Some(id)
    {
      if id in rows then Some(rows[id]) else None
    }

    /** Persists `book`. A book without an id, or with an id that names no
        stored row, is inserted under a freshly generated id; a book whose
        id is stored replaces that row. The stored book is returned. */
    method Save(book: Book) returns (saved: Book)
      requires Valid()
      modifies this
      ensures Valid()
      ensures saved.id.Some? && saved.id.value in rows && rows[saved.id.value] == saved
      ensures saved.title == book.title && saved.author == book.author && saved.isbn == book.isbn
      ensures book.id.Some? && book.id.value in old(rows) ==>
        saved == book && rows == old(rows)[book.id.value := book] && nextId == old(nextId)
      ensures !(book.id.Some? && book.id.value in old(rows)) ==>
        && saved == book.(id := Some(old(nextId)))
        && old(nextId) !in old(rows)
        && rows == old(rows)[old(nextId) := saved]
        && |rows| == |old(rows)| + 1
        && nextId == old(nextId) + 1
    {
      if book.id.Some? && book.id.value in rows {
        saved := book;
        rows := rows[book.id.value := book];
      } else {
        saved := book.(id := Some(nextId));
        rows := rows[nextId := saved];
        nextId := nextId + 1;
      }
    }

    /** Removes the stored row the book's id names; a book without an id,
        or one that is not stored, leaves the table as it was. */
    method Delete(book: Book)
      requires Valid()
      modifies this
      ensures Valid()
      ensures book.id.Some? ==> rows == old(rows) - {book.id.value}
      ensures book.id.None? ==> rows == old(rows)
      ensures nextId == old(nextId)
      ensures book.id.Some? ==> FindById(book.id.value) == None
    {
      if book.id.Some? {
        rows := rows - {book.id.value};
      }
    }
  }

  /** The store scenarios: a persisted ISBN is reported, an ISBN on an
      empty store is not, a saved book gets an id it can be found under,
      and after deleting it nothing is found under that id. */
  method StoreScenario(isbn: string) returns (existsBefore: bool, existsAfter: bool, found: Option<Book>, afterDelete: Option<Book>)
    ensures !existsBefore && existsAfter
    ensures found.Some? && found.value.isbn == isbn
    ensures afterDelete == None
  {
    var repository := new BookRepository();
    existsBefore := repository.ExistsByIsbn(isbn);
    var saved := repository.Save(Book(None, "Aventuras", "Fulano", isbn));
    existsAfter := repository.ExistsByIsbn(isbn);
    found := repository.FindById(saved.id.value);
    repository.Delete(saved);
    afterDelete := repository.FindById(saved.id.value);
  }
}
