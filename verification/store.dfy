/**
 The in-memory book store (app.py:30) and the five request handlers that act
 on it (app.py:37-99). Each handler is a pure function from the store and the
 request's inputs to the response status, its body and the store afterwards.
 The generated id of a new book is an input of `CreateBook`.
 */
module BookStore {
  import opened Json
  import opened Books
  import Dict

  /** `books`: record by id, in insertion order. */
  type Store = Dict.Dict<string, Book>

  /** Every stored record carries its own key as its `id` field. */
  ghost predicate IdsMatchKeys(s: Store) {
    forall k :: k in s.entries ==> s.entries[k].id == k
  }

  /** The invariant every reachable store keeps. */
  ghost predicate Valid(s: Store) {
    Dict.Valid(s) && IdsMatchKeys(s)
  }

  datatype Status = Ok | Created | NoContent | BadRequest | NotFound {
    /** The HTTP status code the handler returns. */
    function Code(): int {
      match this
      case Ok => 200
      case Created => 201
      case NoContent => 204
      case BadRequest => 400
      case NotFound => 404
    }
  }

  /** What the response carries: one record, the listed records, nothing, or
      the description an `abort` attaches. */
  datatype Body = Record(book: Book) | Records(books: seq<Book>) | NoBody | Error(description: string)

  datatype Response = Response(status: Status, body: Body, store: Store)

  const NotFoundMessage: string := "Book not found"
  const InvalidInputMessage: string := "Invalid input"

  /** The store at process start. */
  function Initial(): (s: Store)
    ensures Valid(s)
    ensures |s.entries| == 0
  {
    Dict.Empty()
  }

  /** `GET /books` (app.py:37-41): every stored record, in insertion order. */
  function ListBooks(s: Store): (r: Response)
    ensures r.status == Ok && r.store == s && r.body.Records?
    ensures Valid(s) ==> |r.body.books| == |s.entries|
    ensures Valid(s) ==> forall b :: b in r.body.books <==> b in s.entries.Values
  {
    Dict.ValuesAreEntries(s);
    Response(Ok, Records(Dict.Values(s)), s)
  }

  /** `POST /books` (app.py:43-60). A payload missing a required key is
      refused before anything is stored; otherwise the record built from it
      is stored under `freshId`, the id uuid4 produced. Nothing checks that
      `freshId` is unused: a clashing id overwrites the record it names. */
  function CreateBook(s: Store, data: Object, freshId: string): (r: Response)
    ensures !HasRequiredKeys(data) ==> r == Response(BadRequest, Error(InvalidInputMessage), s)
    ensures HasRequiredKeys(data) ==>
              && r.status == Created
              && r.body == Record(FromPayload(freshId, data))
              && r.store.entries == s.entries[freshId := FromPayload(freshId, data)]
              && r.store.order == (if freshId in s.entries then s.order else s.order + [freshId])
    ensures Valid(s) ==> Valid(r.store)
  {
    if !HasRequiredKeys(data) then
      Response(BadRequest, Error(InvalidInputMessage), s)
    else
      var book := FromPayload(freshId, data);
      Response(Created, Record(book), Dict.Put(s, freshId, book))
  }

  /** `GET /books/<book_id>` (app.py:62-69). The handler tests the result of
      `books.get` for truth; a stored record is never empty, so the test
      fails exactly when the id is absent. */
  function GetBook(s: Store, id: string): (r: Response)
    ensures r.store == s
    ensures id in s.entries ==> r.status == Ok && r.body == Record(s.entries[id])
    ensures id !in s.entries ==> r.status == NotFound && r.body == Error(NotFoundMessage)
  {
    var book := Dict.Get(s, id);
    if book.None? || !Truthy(Obj(Render(book.value))) then
      Response(NotFound, Error(NotFoundMessage), s)
    else
      Response(Ok, Record(book.value), s)
  }

  /** `PUT /books/<book_id>` (app.py:71-89). The existence test comes first,
      so an unknown id is reported whatever the payload; a known id with a
      complete payload gets a freshly built record, nothing of the old one kept. */
  function UpdateBook(s: Store, id: string, data: Object): (r: Response)
    ensures id !in s.entries ==> r == Response(NotFound, Error(NotFoundMessage), s)
    ensures id in s.entries && !HasRequiredKeys(data) ==>
              r == Response(BadRequest, Error(InvalidInputMessage), s)
    ensures id in s.entries && HasRequiredKeys(data) ==>
              && r.status == Ok
              && r.body == Record(FromPayload(id, data))
              && r.store.entries == s.entries[id := FromPayload(id, data)]
              && r.store.order == s.order
    ensures Valid(s) ==> Valid(r.store)
  {
    if id !in s.entries then
      Response(NotFound, Error(NotFoundMessage), s)
    else if !HasRequiredKeys(data) then
      Response(BadRequest, Error(InvalidInputMessage), s)
    else
      var book := FromPayload(id, data);
      Response(Ok, Record(book), Dict.Put(s, id, book))
  }

  /** `DELETE /books/<book_id>` (app.py:91-99). */
  function DeleteBook(s: Store, id: string): (r: Response)
    ensures id !in s.entries ==> r == Response(NotFound, Error(NotFoundMessage), s)
    ensures id in s.entries ==>
              && r.status == NoContent
              && r.body == NoBody
              && r.store.entries == s.entries - {id}
              && |r.store.entries| == |s.entries| - 1
    ensures Valid(s) ==> Valid(r.store)
  {
    if id !in s.entries then
      Response(NotFound, Error(NotFoundMessage), s)
    else
      Response(NoContent, NoBody, Dict.Remove(s, id))
  }

  /** One request to the service, with the id uuid4 would generate for a create. */
  datatype Request =
    | List
    | Create(data: Object, freshId: string)
    | Get(id: string)
    | Update(id: string, data: Object)
    | Delete(id: string)

  /** Dispatches a request to its handler, as the routes of app.py:37-99 do.
      Reads never change the store, and each route answers only with its own
      success status or the errors it can raise. */
  function Handle(s: Store, req: Request): (r: Response)
    ensures req.List? || req.Get? ==> r.store == s
    ensures req.List? ==> r.status == Ok
    ensures req.Create? ==> r.status in {Created, BadRequest}
    ensures req.Get? ==> r.status in {Ok, NotFound}
    ensures req.Update? ==> r.status in {Ok, BadRequest, NotFound}
    ensures req.Delete? ==> r.status in {NoContent, NotFound}
    ensures Valid(s) ==> Valid(r.store)
  {
    match req
    case List => ListBooks(s)
    case Create(data, freshId) => CreateBook(s, data, freshId)
    case Get(id) => GetBook(s, id)
    case Update(id, data) => UpdateBook(s, id, data)
    case Delete(id) => DeleteBook(s, id)
  }

  /** The store after serving `reqs` one after another. Every store the
      process can reach from `Initial()` keeps the invariant. */
  function Run(s: Store, reqs: seq<Request>): (r: Store)
    ensures Valid(s) ==> Valid(r)
    decreases |reqs|
  {
    if reqs == [] then s else Run(Handle(s, reqs[0]).store, reqs[1..])
  }
}
