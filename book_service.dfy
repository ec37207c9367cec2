/** The catalog service: creating a book checks that its ISBN is not yet
    registered before handing it to the store. */
module Service {
  import opened Domain
  import opened Repository

  class BookService {
    const repository: BookRepository

    constructor (repository: BookRepository)
      ensures this.repository == repository
    {
      this.repository := repository;
    }

    /** Check-then-insert. A registered ISBN is a business error and the
        store is not touched; otherwise the result of the store's save is
        returned. Either way, ISBNs that were unique stay unique. */
    method Save(book: Book) returns (r: Result<Book>)
      requires repository.Valid()
      modifies repository
      ensures repository.Valid()
      ensures old(IsbnIn(repository.rows, book.isbn)) ==>
        r == Err(BusinessError(DuplicateIsbnMessage)) && unchanged(repository)
      ensures !old(IsbnIn(repository.rows, book.isbn)) ==>
        && r.Ok?
        && r.value.id.Some? && r.value.id.value in repository.rows
        && repository.rows[r.value.id.value] == r.value
        && r.value.title == book.title && r.value.author == book.author && r.value.isbn == book.isbn
        && repository.rows == old(repository.rows)[r.value.id.value := r.value]
      ensures !old(IsbnIn(repository.rows, book.isbn)) && book.id.Some? && book.id.value in old(repository.rows) ==>
        r == Ok(book)
      ensures r.Ok? && !(book.id.Some? && book.id.value in old(repository.rows)) ==>
        && r.value.id.Some? && r.value.id.value !in old(repository.rows)
        && |repository.rows| == |old(repository.rows)| + 1
      ensures r.Ok? ==> IsbnIn(repository.rows, book.isbn)
      ensures UniqueIsbns(old(repository.rows)) ==> UniqueIsbns(repository.rows)
    {
      var taken := repository.ExistsByIsbn(book.isbn);
      if taken {
        return Err(BusinessError(DuplicateIsbnMessage));
      }
      ghost var before := repository.rows;
      var saved := repository.Save(book);
      if UniqueIsbns(before) {
        UniqueAfterPut(before, saved.id.value, saved);
      }
      IsbnInStored(repository.rows, saved.id.value);
      r := Ok(saved);
    }
  }

  /** Registering the same ISBN twice: the first save succeeds with an id,
      the second fails with the duplicate-ISBN business error. */
  method DuplicateIsbnScenario() returns (first: Result<Book>, second: Result<Book>)
    ensures first.Ok? && first.value.id.Some? && first.value.isbn == "001"
    ensures second == Err(BusinessError(DuplicateIsbnMessage))
  {
    var repository := new BookRepository();
    var service := new BookService(repository);
    first := service.Save(Book(None, "As aventuras", "Artur", "001"));
    second := service.Save(Book(None, "As aventuras", "Artur", "001"));
  }
}
