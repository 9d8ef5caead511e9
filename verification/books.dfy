/**
 A book record and the payload checks the create and update handlers apply
 before storing one (app.py:48-58, app.py:79-88).
 */
module Books {
  import opened Json

  /** The four keys a create or update payload must carry. */
  const RequiredKeys: set<string> := {"title", "author", "genre", "year"}

  /** The keys of a stored record: the required ones and the generated id. */
  const RecordKeys: set<string> := RequiredKeys + {"id"}

  /** A stored record. The id is the store's own string; the four other
      fields are whatever JSON value the caller sent, unchecked. */
  datatype Book = Book(id: string, title: Value, author: Value, genre: Value, year: Value)

  /** The presence test of app.py:48 and app.py:79. Only presence is checked:
      a key mapped to `null` passes. It accepts exactly the payloads holding
      all four required keys. */
  predicate HasRequiredKeys(data: Object)
    ensures HasRequiredKeys(data) <==> RequiredKeys <= data.Keys
  {
    "title" in data && "author" in data && "genre" in data && "year" in data
  }

  /** The dict the handlers store and `jsonify` renders. */
  function Render(b: Book): (o: Object)
    ensures o.Keys == RecordKeys
  {
    map["id" := Str(b.id), "title" := b.title, "author" := b.author, "genre" := b.genre, "year" := b.year]
  }

  /** The payload cut down to the four required keys. */
  function Required(data: Object): Object {
    map k | k in data && k in RequiredKeys :: data[k]
  }

  /** The record the handlers build from a payload that passed the presence
      test: the four required fields copied from it, under the id the store
      chose. Every other payload key is dropped, a payload `id` included. */
  function FromPayload(id: string, data: Object): (b: Book)
    requires HasRequiredKeys(data)
    ensures b.id == id
    ensures Render(b) == Required(data)["id" := Str(id)]
  {
    var b := Book(id, data["title"], data["author"], data["genre"], data["year"]);
    assert Render(b).Keys == Required(data)["id" := Str(id)].Keys;
    b
  }

  /** A rendered record is a non-empty dict, so Python treats it as true. */
  lemma RecordIsTruthy(b: Book)
    ensures Truthy(Obj(Render(b)))
  {
    assert "id" in Render(b);
  }

  /** Sending a returned record back as a payload rebuilds the same record. */
  lemma RenderRoundTrip(b: Book)
    ensures HasRequiredKeys(Render(b))
    ensures FromPayload(b.id, Render(b)) == b
  {
  }

  /** The record built from a payload depends only on its four required keys:
      an extra key, `id` included, changes nothing. */
  lemma ExtraKeysIgnored(id: string, data: Object, key: string, v: Value)
    requires HasRequiredKeys(data)
    requires key !in RequiredKeys
    ensures HasRequiredKeys(data[key := v])
    ensures FromPayload(id, data[key := v]) == FromPayload(id, data)
  {
  }
}
