# Library API book store — a verified functional model

The service keeps every book in one process-wide Python dict, `books`, keyed by
a generated id string (app.py:30). Five HTTP handlers act on it: list all
records, create one from a JSON payload, get one by id, replace one by id, and
delete one by id. A create or update payload is only checked for the presence
of the four keys `title`, `author`, `genre` and `year`. The values are never
inspected. A stored record is the dict `{id, title, author, genre, year}`, and
its `id` is always its own key.

This project models that store as pure Dafny functions. Each handler takes the
store and the request's inputs and returns the status, the response body and
the store afterwards. The model is in five modules:

- `Json` (json.dfy): decoded JSON values, and Python truthiness of such values.
- `Books` (books.dfy): the record, the presence test, and the construction of a
  record from a payload.
- `Dict` (dict.dfy): the Python dict semantics the store relies on. A map is
  kept together with its insertion order. Assigning to a present key keeps its
  place. Assigning to a new key appends it. `del` removes the key. `values()`
  follows the insertion order.
- `BookStore` (store.dfy): the store, its invariant, the five handlers, and the
  request-by-request runner `Run`.
- `Laws` (laws.dfy): how the handlers relate. It covers what a later get or
  list sees after a write, and which entries each write leaves alone.

The store invariant is `BookStore.Valid`. It holds that the insertion order
lists each key exactly once, and that each record's `id` equals its key.

Two behaviours of the code shape the model:

- The listing is in insertion order, because `get_books` returns
  `list(books.values())` (app.py:41). The model keeps the insertion order of
  the dict.
- `add_book` never checks that the uuid4 id (app.py:51) is unused. The model
  takes the id as an input to `CreateBook`. A clashing id overwrites its record
  in place, and the store does not grow. The laws assume an unused id only
  where they need one.

## Model

| member | source | states |
|---|---|---|
| BookStore.Initial | app.py:30 | the store starts empty and satisfies the invariant |
| BookStore.ListBooks | app.py:37-41 | list answers 200 and leaves the store as it was; in a well-formed store it returns one record per entry, and a record is listed exactly when it is stored |
| BookStore.CreateBook | app.py:43-60 | a payload missing any required key gets 400 "Invalid input" with the store unchanged; otherwise the response is 201 with the built record, that record is stored under the supplied id, the id is appended to the order only when it was not already stored, and the invariant is kept |
| BookStore.GetBook | app.py:62-69 | get never changes the store; a present id gets 200 with its stored record, an absent id gets 404 "Book not found" |
| BookStore.UpdateBook | app.py:71-89 | an unknown id gets 404 before the payload is looked at; a known id with an incomplete payload gets 400; otherwise the response is 200, the record under the id is rebuilt from the payload alone, the key order is unchanged, and the invariant is kept |
| BookStore.DeleteBook | app.py:91-99 | an unknown id gets 404 with the store unchanged; a known id gets 204 with no body, exactly that key is removed, and the store shrinks by one; the invariant is kept |
| BookStore.Handle | app.py:37-99 | each request goes to its route's handler; list and get leave the store unchanged; each route answers only with its own success status or the errors it raises (create 201/400, get 200/404, update 200/400/404, delete 204/404); the invariant is kept |
| BookStore.Run | app.py:30-99 | every sequence of requests served from a well-formed store (the empty one included) leaves a well-formed store, so each reachable record's `id` equals its key |
| Books.FromPayload | app.py:52-58 | the built record renders as the payload cut down to title/author/genre/year, plus `id` set to the store's id; every other key is dropped |
| Books.Render | app.py:52-58 | a stored record has exactly the keys id, title, author, genre and year |
| Books.HasRequiredKeys | app.py:48 | the presence test passes exactly when all four of title, author, genre and year are keys of the payload, whatever their values |
| Books.RecordIsTruthy | app.py:66-67 | a stored record is a non-empty dict, so the `if not book` test fails only for a missing id |
| Books.RenderRoundTrip | app.py:82-88 | a returned record, sent back as an update payload, passes the presence test and rebuilds the same record |
| Books.ExtraKeysIgnored | app.py:52-58 | adding a key outside the required four to a payload, `id` included, does not change the built record |
| Dict.Empty | app.py:30 | `{}` is a well-formed dict with no entries |
| Dict.Get | app.py:66 | `books.get(k)` gives the stored value when k is present and `None` otherwise |
| Dict.Put | app.py:59 | `d[k] = v` maps k to v, keeps every other entry, and keeps the order well formed |
| Dict.Without | app.py:98 | removing a key from the order keeps every other key and no repeats, and changes nothing when the key is absent |
| Dict.Remove | app.py:95-98 | `del d[k]`, allowed only for a present key as Python raises KeyError otherwise, removes exactly k from the map and keeps the order well formed |
| Dict.ValuesOf | app.py:41 | when every key is present, the values come position by position from the keys, one value per key |
| Dict.Values | app.py:41 | in a well-formed dict, `list(d.values())` has exactly one element per inserted key |
| Dict.ValuesAreEntries | app.py:41 | in a well-formed dict, `values()` has one element per entry, the i-th element is the value under the i-th inserted key, and a value is listed exactly when some key maps to it |
| Dict.ValuesAfterPutNew | app.py:59 | assigning a new key appends its value at the end of `values()` |
| Dict.ValuesAfterPutPresent | app.py:82-88 | assigning a present key replaces its value in place in `values()` |
| Dict.ValuesAfterRemove | app.py:98 | `del d[k]` removes k's value from `values()` and keeps the rest in order |
| Laws.CreateFrame | app.py:51-59 | create changes no entry but the one at the new id; a fresh id grows the store by one, and a clashing id leaves its size unchanged |
| Laws.CreateThenGet | app.py:59-69 | a get on a just-created id returns 200 and the record the create returned |
| Laws.CreateThenList | app.py:41-59 | with a fresh id, the created record is listed last, after the earlier records in their old order |
| Laws.CreateClashThenList | app.py:51-59 | a create whose id is already stored replaces that record at its position in the listing, and nothing is appended |
| Laws.UpdateUnknownIgnoresPayload | app.py:75-80 | update of an unknown id gets the same 404 response whatever the payload |
| Laws.UpdateReplacesWholesale | app.py:82-89 | the record stored and returned by an update depends only on the id and the payload, never on the record it replaces |
| Laws.UpdateFrame | app.py:75-88 | update changes no other entry and never adds or removes a key |
| Laws.UpdateThenGet | app.py:82-89 | after an update, a get returns the payload's four fields plus the id, with nothing kept from the old record |
| Laws.UpdateThenList | app.py:41-88 | an updated record keeps its position in the listing, and the other records are unchanged |
| Laws.DeleteFrame | app.py:95-98 | delete leaves every other entry as it was, and afterwards the id is absent |
| Laws.DeleteThenGet | app.py:95-99 | after a successful delete (204), a get on the same id gets 404 |
| Laws.DeleteThenList | app.py:41-98 | delete drops exactly that record from the listing, and the others keep their order |
| Laws.ListedIdsDistinct | app.py:41-59 | in a well-formed store the i-th listed record carries the i-th inserted key as its id, and no two listed records share an id |

## Left out

- Flask routing, `request.get_json`, `jsonify`, `abort` and `make_response`
  are framework plumbing. The model keeps only the status, the record or
  records returned, the `abort` description and the resulting store.
- The model takes every request body to be a JSON object, so non-object
  bodies are not modelled. A body of `null`, a number or a boolean makes the
  presence test at app.py:48 and app.py:79 raise, which Flask reports as 500.
  For an array or a string, the test is a membership or substring test. So
  `[]` or `"x"` gets 400 "Invalid input". An array or string that contains all
  four names passes the test and then fails at `data.get('title')` (app.py:54)
  or `data['title']` (app.py:84), which also gives 500.
- Prometheus counters and the `/metrics` endpoint (app.py:19, app.py:32-34, the
  `.inc()` calls) are observability side effects. They do not affect the store.
- The Swagger UI blueprint, CORS, and reading `oas.yaml` (app.py:8-27) are
  configuration and file I/O.
- uuid4 (app.py:51) is randomness. The id it produces is the `freshId` input of
  `CreateBook`.
- The store is a shared dict with no locking. The model is sequential, and
  concurrent requests are not modelled.
- JSON numbers are modelled as reals. Floating-point rounding is not modelled.
  The store never reads these values anyway.
- Dict.Without: removes every occurrence of the key, where `del` removes one
  entry. The two agree on a well-formed dict, where no key repeats.
- The add_book handler reads fields with `data.get(k)` and update_book with
  `data[k]`. Both run only after the presence test, so both return the same
  value, and the model uses one construction, `Books.FromPayload`.
