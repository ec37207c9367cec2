/** The book operations exposed at the API boundary, with HTTP framing
    left aside: an absent id is the NotFound outcome, a business rule
    violation is a BusinessError, and books travel as BookDto values. */
module Controller {
  import opened Domain
  import opened Paging
  import opened Repository
  import opened Service

  /** Maps every book of a page's content to its boundary form, in order. */
  function ToDtos(books: seq<Book>): (r: seq<BookDto>)
    ensures |r| == |books|
    ensures forall k :: 0 <= k < |r| ==> ToEntity(r[k]) == books[k]
  {
    if books == [] then [] else [ToDto(books[0])] + ToDtos(books[1..])
  }

  class BookController {
    const service: BookService

    /** The store is well formed and its ISBNs are unique; every operation
        below keeps this, so ISBNs stay unique as long as books enter the
        store only through these operations. */
    ghost predicate Valid()
      reads service.repository
    {
      service.repository.Valid() && UniqueIsbns(service.repository.rows)
    }

    constructor (service: BookService)
      ensures this.service == service
    {
      this.service := service;
    }

    /** Creates a book through the service's ISBN check. */
    method Create(dto: BookDto) returns (r: Result<BookDto>)
      requires Valid()
      modifies service.repository
      ensures Valid()
      ensures old(IsbnIn(service.repository.rows, dto.isbn)) ==>
        r == Err(BusinessError(DuplicateIsbnMessage)) && unchanged(service.repository)
      ensures !old(IsbnIn(service.repository.rows, dto.isbn)) ==>
        && r.Ok? && r.value.id.Some?
        && r.value.title == dto.title && r.value.author == dto.author && r.value.isbn == dto.isbn
        && service.repository.rows == old(service.repository.rows)[r.value.id.value := ToEntity(r.value)]
      ensures !old(IsbnIn(service.repository.rows, dto.isbn)) && dto.id.Some? && dto.id.value in old(service.repository.rows) ==>
        r == Ok(dto)
      ensures r.Ok? && !(dto.id.Some? && dto.id.value in old(service.repository.rows)) ==>
        && r.value.id.Some? && r.value.id.value !in old(service.repository.rows)
        && |service.repository.rows| == |old(service.repository.rows)| + 1
    {
      var saved := service.Save(ToEntity(dto));
      match saved
      case Err(e) => r := Err(e);
      case Ok(book) => r := Ok(ToDto(book));
    }

    /** The stored book under `id`, or NotFound. */
    function Get(id: int): (r: Result<BookDto>)
      reads service.repository
      ensures r.Err? <==> id !in service.repository.rows
      ensures r.Err? ==> r.error == NotFound
      ensures r.Ok? ==> ToEntity(r.value) == service.repository.rows[id]
      ensures service.repository.Valid() && r.Ok? ==> r.value.id == Some(id)
    {
      match service.repository.FindById(id)
      case None => Err(NotFound)
      case Some(book) => Ok(ToDto(book))
    }

    /** Deletes the book under `id`; an absent id is NotFound and the store
        is not asked to delete anything. */
    method Delete(id: int) returns (r: Result<()>)
      requires Valid()
      modifies service.repository
      ensures Valid()
      ensures id !in old(service.repository.rows) ==>
        r == Err(NotFound) && unchanged(service.repository)
      ensures id in old(service.repository.rows) ==>
        r == Ok(()) && service.repository.rows == old(service.repository.rows) - {id}
      ensures service.repository.nextId == old(service.repository.nextId)
    {
      var found := service.repository.FindById(id);
      match found
      case None =>
        r := Err(NotFound);
      case Some(book) =>
        UniqueAfterRemove(service.repository.rows, id);
        service.repository.Delete(book);
        r := Ok(());
    }

    /** Overwrites the author and title of the book under `id` and stores
        it again; its id and ISBN are kept, whatever `dto` carries in
        those fields. An absent id is NotFound and the store is untouched. */
    method Update(id: int, dto: BookDto) returns (r: Result<BookDto>)
      requires Valid()
      modifies service.repository
      ensures Valid()
      ensures id !in old(service.repository.rows) ==>
        r == Err(NotFound) && unchanged(service.repository)
      ensures id in old(service.repository.rows) ==>
        var updated := old(service.repository.rows)[id].(author := dto.author, title := dto.title);
        && r == Ok(ToDto(updated))
        && service.repository.rows == old(service.repository.rows)[id := updated]
        && service.repository.nextId == old(service.repository.nextId)
      ensures r.Ok? ==>
        r.value.id == Some(id) && r.value.isbn == old(service.repository.rows)[id].isbn
    {
      var found := service.repository.FindById(id);
      match found
      case None =>
        r := Err(NotFound);
      case Some(book) =>
        var updated := book.(author := dto.author, title := dto.title);
        UniqueAfterReplaceSameIsbn(service.repository.rows, id, updated);
        var saved := service.repository.Save(updated);
        r := Ok(ToDto(saved));
    }

    /** Re-wraps the page the service's search returns for the filter:
        same content in the same order, same total, and the request echoed.
        The search itself is a parameter. */
    function Find(dto: BookDto, request: PageRequest, serviceFind: (Book, PageRequest) -> Page<Book>): (p: Page<BookDto>)
      ensures var result := serviceFind(ToEntity(dto), request);
        && |p.content| == |result.content|
        && (forall k :: 0 <= k < |p.content| ==> ToEntity(p.content[k]) == result.content[k])
        && p.totalElements == result.totalElements
        && p.pageable == request
    {
      var result := serviceFind(ToEntity(dto), request);
      Page(ToDtos(result.content), request, result.totalElements)
    }
  }

  /** After creating a book, getting it by the returned id yields the same
      fields, updating it keeps its ISBN, and after deleting it getting it
      is NotFound. */
  method LifecycleScenario() returns (created: Result<BookDto>, fetched: Result<BookDto>, updated: Result<BookDto>, gone: Result<BookDto>)
    ensures created.Ok? && created.value.id.Some?
    ensures fetched == created
    ensures updated.Ok? && updated.value.isbn == "001" && updated.value.title == "Outro titulo"
    ensures gone == Err(NotFound)
  {
    var repository := new BookRepository();
    var service := new BookService(repository);
    var controller := new BookController(service);
    created := controller.Create(BookDto(None, "As aventuras", "Artur", "001"));
    var id := created.value.id.value;
    fetched := controller.Get(id);
    updated := controller.Update(id, BookDto(None, "Outro titulo", "Artur", "999"));
    var _ := controller.Delete(id);
    gone := controller.Get(id);
  }
}
