# Library catalog and loan store — a Dafny model

This project models the core of a small library API: the book catalog
and the loan-store queries. Books carry an id that the store assigns, a
title, an author and an ISBN. The catalog service registers a book only if
its ISBN is not already registered ("Isbn já cadastrado." otherwise). The
book operations at the API boundary get, create, update, delete and
search books. The loan store answers three queries: does a book have an
unreturned loan; which loans match a book ISBN or a customer (paginated);
which unreturned loans are dated before a threshold day.

The store is modelled as an in-memory table, not as a database:

- `domain.dfy` (module `Domain`): the `Book`, `BookDto` and `Loan`
  records, the `Result`/`Error` outcome, and the predicates on a table of
  books. `IsbnIn` is what `existsByIsbn` asks. `UniqueIsbns` says no two
  stored books share an ISBN. The lemmas show which table updates keep
  ISBNs unique.
- `paging.dfy` (module `Paging`): page requests (0-based page number and
  size), pages (content, request, total), and the proof that reading every
  page gives back the whole result, each record once and in order.
- `book_repository.dfy` (module `Repository`): class `BookRepository`.
  It holds a map from id to `Book` and a next-id counter. It follows the
  JPA repository contract for `existsByIsbn`, `save`, `findById` and
  `delete`.
- `book_service.dfy` (module `Service`): class `BookService` and its
  check-then-insert `Save`.
- `book_controller.dfy` (module `Controller`): class `BookController`
  with `Create`, `Get`, `Delete`, `Update` and `Find`. HTTP framing is
  abstracted: NOT_FOUND becomes `Err(NotFound)`, and a business exception
  becomes `Err(BusinessError(message))`. Its `Valid()` includes
  `UniqueIsbns`, and every operation keeps `Valid()`. So ISBNs stay unique
  as long as books enter the store only through these operations.
- `loan_repository.dfy` (module `Loans`): the `LoanStore` class
  (persisting appends a loan), one `Filter` over the loan sequence, and the
  three queries as functions over it. Dates are integer day numbers, and
  "today" is a parameter.

## Model

| member | source | states |
|---|---|---|
| `Repository.BookRepository.Save` | src/test/java/com/cursodsousa/libraryapi/model/repository/BookRepositoryTest.java:77-88 | a saved book always gets an id and is stored under it with the submitted title, author and ISBN; a new book gets a fresh id, the table grows by exactly one and every earlier row is kept; a book whose id is stored replaces that row |
| `Repository.BookRepository.ExistsByIsbn` | src/main/java/com/cursodsousa/libraryapi/model/repository/BookRepository.java:8 | true exactly when some persisted book carries the given ISBN |
| `Repository.BookRepository.FindById` | src/test/java/com/cursodsousa/libraryapi/model/repository/BookRepositoryTest.java:63-75 | the result is present exactly when the id is stored, and then it is the stored book, whose id is that id; an unknown id gives an empty result, not an error |
| `Repository.BookRepository.Delete` | src/test/java/com/cursodsousa/libraryapi/model/repository/BookRepositoryTest.java:90-104 | deleting a book removes exactly the row its id names, after which nothing is found under that id; the id counter is unchanged |
| `Repository.StoreScenario` | src/test/java/com/cursodsousa/libraryapi/model/repository/BookRepositoryTest.java:29-61 | on an empty store `existsByIsbn` is false; after saving a book with that ISBN it is true; the saved book is found by its id; after deleting it nothing is found |
| `Domain.IsbnInStored` | src/test/java/com/cursodsousa/libraryapi/model/repository/BookRepositoryTest.java:31-41 | the ISBN of any stored book is reported by `existsByIsbn` |
| `Domain.IsbnInAfterPut` | src/main/java/com/cursodsousa/libraryapi/model/repository/BookRepository.java:8 | after inserting a book under a new key, an ISBN is reported exactly when it was reported before or is the new book's ISBN |
| `Domain.UniqueAfterPut` | src/main/java/com/cursodsousa/libraryapi/service/impl/BookServiceImpl.java:20-25 | storing a book whose ISBN is absent keeps all ISBNs distinct |
| `Domain.UniqueAfterReplaceSameIsbn` | src/main/java/com/cursodsousa/libraryapi/api/resource/BookController.java:68-71 | re-storing a book under its own id with its ISBN unchanged keeps all ISBNs distinct |
| `Domain.UniqueAfterRemove` | src/main/java/com/cursodsousa/libraryapi/api/resource/BookController.java:60-62 | removing a book keeps all ISBNs distinct |
| `Domain.DtoRoundTrip` | src/main/java/com/cursodsousa/libraryapi/api/resource/BookController.java:43-45 | the entity/DTO mapping is field for field: each direction undoes the other |
| `Service.BookService.Save` | src/main/java/com/cursodsousa/libraryapi/service/impl/BookServiceImpl.java:20-25 | a registered ISBN gives the business error "Isbn já cadastrado." and leaves the store untouched; otherwise the result is the store's save: an id is assigned, the submitted fields are kept, only that row changes and the ISBN is now registered; a book whose id is stored is returned as given and replaces its row; any other book gets a fresh id and grows the store by one; distinct ISBNs stay distinct either way |
| `Service.DuplicateIsbnScenario` | src/test/java/com/cursodsousa/libraryapi/service/BookServiceTest.java:72-88 | saving ISBN "001" twice: the first save returns a book with an id, the second fails with the duplicate-ISBN business error |
| `Controller.BookController.Create` | src/main/java/com/cursodsousa/libraryapi/api/resource/BookController.java:42-46 | creation goes through the service: a duplicate ISBN gives the business error with the store unchanged; otherwise the returned DTO has an id and the submitted fields and is what is stored; a DTO whose id is stored comes back unchanged and replaces that row; any other DTO gets a fresh id, the store grows by one and every earlier book is kept |
| `Controller.BookController.Get` | src/main/java/com/cursodsousa/libraryapi/api/resource/BookController.java:50-54 | NotFound exactly when the id is not stored; otherwise the stored book's fields with that id |
| `Controller.BookController.Delete` | src/main/java/com/cursodsousa/libraryapi/api/resource/BookController.java:59-63 | an absent id gives NotFound and the store is untouched; a present id removes exactly that book |
| `Controller.BookController.Update` | src/main/java/com/cursodsousa/libraryapi/api/resource/BookController.java:67-75 | an absent id gives NotFound and the store is untouched; otherwise only author and title are overwritten, the id and ISBN are kept whatever the DTO carries, and the stored row is the returned book |
| `Controller.BookController.Find` | src/main/java/com/cursodsousa/libraryapi/api/resource/BookController.java:79-89 | the page returned holds the service's page content in the same order, with the same total, answering the caller's page request |
| `Controller.ToDtos` | src/main/java/com/cursodsousa/libraryapi/api/resource/BookController.java:83-86 | mapping a page's content keeps its length, and element k maps back to book k |
| `Controller.LifecycleScenario` | src/main/java/com/cursodsousa/libraryapi/api/resource/BookController.java:42-75 | a created book gets an id; getting it yields the created DTO; updating it changes the title but keeps ISBN "001"; after deleting it, getting it is NotFound |
| `Paging.Slice` | src/test/java/com/cursodsousa/libraryapi/model/repository/LoanRepositoryTest.java:54-60 | a page holds at most page-size records, and they are the records at positions offset, offset+1, … of the full result; a page holds exactly min(page size, records remaining after the offset) records, so a partial last page holds every remaining record; a page past the end is empty |
| `Paging.PageOf` | src/test/java/com/cursodsousa/libraryapi/model/repository/LoanRepositoryTest.java:54-60 | a paged query's answer echoes the request, reports the number of all matching records as its total, and holds min(page size, remaining) records, namely those starting at the page's offset |
| `Paging.PagesArePrefix` | src/test/java/com/cursodsousa/libraryapi/model/repository/LoanRepositoryTest.java:54-60 | reading pages 0 to n-1 in order yields exactly the first n×size records of the result |
| `Paging.PagesCoverAll` | src/test/java/com/cursodsousa/libraryapi/model/repository/LoanRepositoryTest.java:54-60 | reading every page yields the whole result, so the page sizes add up to the reported total and no record is on two pages |
| `Loans.Filter` | src/test/java/com/cursodsousa/libraryapi/model/repository/LoanRepositoryTest.java:44-78 | a query result holds exactly the stored loans that satisfy the query's condition, and is no longer than the store |
| `Loans.FilterAppend` | src/test/java/com/cursodsousa/libraryapi/model/repository/LoanRepositoryTest.java:81-88 | on a store that grew by appending loans, a query's result is the old result followed by the result on the appended loans (results are in the model's stored order) |
| `Loans.ExistsByBookAndNotReturned` | src/test/java/com/cursodsousa/libraryapi/model/repository/LoanRepositoryTest.java:33-47 | true exactly when some stored loan is for that book and is not returned |
| `Loans.FindByBookIsbnOrCustomer` | src/test/java/com/cursodsousa/libraryapi/model/repository/LoanRepositoryTest.java:49-61 | the page echoes the request, its total is the number of loans whose ISBN or customer matches, and every loan on it is stored and matches the ISBN or the customer |
| `Loans.FindByLoanDateLessThanAndNotReturned` | src/test/java/com/cursodsousa/libraryapi/model/repository/LoanRepositoryTest.java:63-79 | a loan is reported exactly when it is stored, dated strictly before the threshold and not returned |
| `Loans.IsbnOrCustomerFirstPageComplete` | src/test/java/com/cursodsousa/libraryapi/model/repository/LoanRepositoryTest.java:53-57 | when all matches fit on page 0, that page holds exactly the loans whose ISBN or customer matches |
| `Loans.IsbnOrCustomerPagesAreSlices` | src/test/java/com/cursodsousa/libraryapi/model/repository/LoanRepositoryTest.java:54-60 | the contents of the query's pages 0 to n-1, one after the other, are pages 0 to n-1 of the list of matching loans |
| `Loans.IsbnOrCustomerPagesCoverAll` | src/test/java/com/cursodsousa/libraryapi/model/repository/LoanRepositoryTest.java:54-60 | reading as many pages of the ISBN-or-customer query as its reported total calls for yields every matching loan once, in the model's stored order |
| `Domain.NewLoan` | src/test/java/com/cursodsousa/libraryapi/model/repository/LoanRepositoryTest.java:40 | a loan built without a returned flag is not returned, and carries the given book, customer and date |
| `Loans.ActiveAfterPersist` | src/test/java/com/cursodsousa/libraryapi/model/repository/LoanRepositoryTest.java:37-46 | a newly built loan is not returned, so after persisting it its book has an unreturned loan |
| `Loans.NoActiveWhenAllReturned` | src/test/java/com/cursodsousa/libraryapi/model/repository/LoanRepositoryTest.java:44 | when every loan of the book is returned, the book has no unreturned loan |
| `Loans.OverdueBoundary` | src/test/java/com/cursodsousa/libraryapi/model/repository/LoanRepositoryTest.java:64-78 | the threshold is taken as strict, as the query's name (`LessThan`) reads: a loan dated on the threshold day is not reported, a returned loan is not reported, an unreturned loan dated earlier is |
| `Loans.ReturnedLeavesOverdue` | src/test/java/com/cursodsousa/libraryapi/model/repository/LoanRepositoryTest.java:64-69 | once a loan is marked returned it drops out of the overdue result, and the rest of the result is unchanged |
| `Loans.LoanStore.Persist` | src/test/java/com/cursodsousa/libraryapi/model/repository/LoanRepositoryTest.java:81-88 | persisting appends the loan to the store |
| `Loans.LoanQueriesScenario` | src/test/java/com/cursodsousa/libraryapi/model/repository/LoanRepositoryTest.java:33-79 | a loan of book "123" to "Fulano": its book has an unreturned loan; it is the single match on page (0, 10) with total 1; dated today−5 it is overdue at today−4; dated today it is not |

## Left out

- HTTP framing, JSON, Swagger annotations and status codes. Only the NotFound / business-error distinction is kept, as `Result`.
- Bean validation (`@Valid` on the request DTO) and the validation-error handlers. The validation rules live in a DTO class that is not part of this model.
- ModelMapper's reflective mapping. DTO and entity are mapped field for field (`ToDto`, `ToEntity`).
- The book service's `getById`, `update`, `delete` and `find` are not part of this model. `Get`, `Delete` and `Update` use the repository's `FindById`, `Delete` and `Save` directly, as plain delegation. `Find` takes the service's search as a function parameter, so the example-based filter is not modelled.
- Controller.BookController.Find: passes the service page's total through unchanged. Spring's `PageImpl` can raise the total when the content runs past it; that adjustment is not modelled.
- Controller.BookController.Update: takes the DTO as given. In the source, the DTO parameter of `update` has no `@RequestBody`, so Spring binds it from request parameters and not from a JSON body. That binding is framework behaviour and is not modelled.
- Update mutates the managed `Book` entity through its setters before saving it. The model builds a new `Book` value instead, so aliasing of entity objects is not captured.
- The database's own unique constraint, and races between concurrent creators. The model is one sequential store, and ISBN uniqueness rests on the service's check.
- Repository.BookRepository.Save: ids are unbounded integers, so overflow of the 64-bit id sequence is not modelled. A book whose id is set but not stored is inserted under a fresh id.
- Repository.BookRepository.Delete: deleting a book that is not stored, or that has no id, is a no-op.
- The `Book` and `Loan` entities and the `LoanRepository` interface are not part of this model. Their shape is inferred from the repository tests. A loan stores its book's id and ISBN instead of an object reference, and `returned` defaults to false.
- Loans.FindByLoanDateLessThanAndNotReturned: takes the date comparison as strict (`<`), as the method's name reads. The query text is not part of this model, and no test dates a loan on the threshold day; that test's display name says "less than or equal" ("menor ou igual").
- Loans.FindByBookIsbnOrCustomer: returns matches in stored (insertion) order. The query text is not part of this model and shows no ORDER BY, so the source promises no order. The pagination lemmas hold for the order the model fixes.
- Loans.ExistsByBookAndNotReturned: matches the book by id, where the source passes the book entity.
- Loans have no id of their own. Result membership compares loans by value.
- The loan service (create and return), the scheduled overdue sweep and the e-mail notifications. Their source is not part of this model.
- Application bootstrap, the startup e-mail, the exception-to-response advice, and the scratch date-formatting class.
