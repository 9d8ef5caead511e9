/**
 How the handlers of the book store relate to each other: what a later read
 sees after a write, and which entries a write leaves alone.
 */
module Laws {
  import opened Json
  import opened Books
  import opened BookStore
  import Dict

  /** `m` and `m'` agree on every key other than `k`: same presence, same record. */
  ghost predicate SameExcept(m: map<string, Book>, m': map<string, Book>, k: string) {
    forall j :: j != k ==> (j in m <==> j in m') && (j in m ==> m[j] == m'[j])
  }

  /** Create touches no entry but the one at the new id; a fresh id grows the
      store by one, a clashing id overwrites in place and the size stays. */
  lemma CreateFrame(s: Store, data: Object, freshId: string)
    ensures SameExcept(s.entries, CreateBook(s, data, freshId).store.entries, freshId)
    ensures HasRequiredKeys(data) && freshId !in s.entries ==>
              |CreateBook(s, data, freshId).store.entries| == |s.entries| + 1
    ensures HasRequiredKeys(data) && freshId in s.entries ==>
              |CreateBook(s, data, freshId).store.entries| == |s.entries|
  {
  }

  /** The record a create returns is what a later get on its id returns. */
  lemma CreateThenGet(s: Store, data: Object, freshId: string)
    requires HasRequiredKeys(data)
    ensures var c := CreateBook(s, data, freshId);
            GetBook(c.store, freshId) == Response(Ok, c.body, c.store)
  {
  }

  /** With a fresh id, the new record is listed last, after every earlier one. */
  lemma CreateThenList(s: Store, data: Object, freshId: string)
    requires Valid(s)
    requires HasRequiredKeys(data)
    requires freshId !in s.entries
    ensures ListBooks(CreateBook(s, data, freshId).store).body
            == Records(ListBooks(s).body.books + [FromPayload(freshId, data)])
  {
    Dict.ValuesAfterPutNew(s, freshId, FromPayload(freshId, data));
  }

  /** A create whose id clashes with a stored one overwrites that record where
      it stands in the listing; nothing is appended. */
  lemma CreateClashThenList(s: Store, data: Object, freshId: string, i: nat)
    requires Valid(s)
    requires HasRequiredKeys(data)
    requires i < |s.order| && s.order[i] == freshId
    ensures ListBooks(CreateBook(s, data, freshId).store).body
            == Records(ListBooks(s).body.books[i := FromPayload(freshId, data)])
  {
    Dict.ValuesAfterPutPresent(s, freshId, FromPayload(freshId, data), i);
  }

  /** Update of an unknown id is refused whatever the payload, even one that
      would fail validation. */
  lemma UpdateUnknownIgnoresPayload(s: Store, id: string, data: Object, data': Object)
    requires id !in s.entries
    ensures UpdateBook(s, id, data) == UpdateBook(s, id, data')
    ensures UpdateBook(s, id, data).status == NotFound
  {
  }

  /** Update replaces the record wholesale: what ends up stored depends on the
      id and the payload only, never on the record it replaces. */
  lemma UpdateReplacesWholesale(s: Store, s': Store, id: string, data: Object)
    requires id in s.entries && id in s'.entries
    requires HasRequiredKeys(data)
    ensures UpdateBook(s, id, data).store.entries[id] == UpdateBook(s', id, data).store.entries[id]
    ensures UpdateBook(s, id, data).body == UpdateBook(s', id, data).body
  {
  }

  /** Update changes no other entry and never changes the store's size. */
  lemma UpdateFrame(s: Store, id: string, data: Object)
    ensures SameExcept(s.entries, UpdateBook(s, id, data).store.entries, id)
    ensures UpdateBook(s, id, data).store.entries.Keys == s.entries.Keys
  {
  }

  /** A get after a successful update sees the new values, not a merge with the old. */
  lemma UpdateThenGet(s: Store, id: string, data: Object)
    requires id in s.entries
    requires HasRequiredKeys(data)
    ensures var u := UpdateBook(s, id, data);
            && GetBook(u.store, id).body == Record(FromPayload(id, data))
            && Render(GetBook(u.store, id).body.book) == Required(data)["id" := Str(id)]
  {
  }

  /** An updated record keeps its place in the listing. */
  lemma UpdateThenList(s: Store, id: string, data: Object, i: nat)
    requires Valid(s)
    requires HasRequiredKeys(data)
    requires i < |s.order| && s.order[i] == id
    ensures ListBooks(UpdateBook(s, id, data).store).body
            == Records(ListBooks(s).body.books[i := FromPayload(id, data)])
  {
    Dict.ValuesAfterPutPresent(s, id, FromPayload(id, data), i);
  }

  /** Delete removes exactly its key; every other entry is kept as it was. */
  lemma DeleteFrame(s: Store, id: string)
    ensures SameExcept(s.entries, DeleteBook(s, id).store.entries, id)
    ensures id !in DeleteBook(s, id).store.entries
  {
  }

  /** A get after a successful delete reports the book missing. */
  lemma DeleteThenGet(s: Store, id: string)
    requires id in s.entries
    ensures DeleteBook(s, id).status == NoContent
    ensures GetBook(DeleteBook(s, id).store, id).status == NotFound
  {
  }

  /** A deleted record leaves the listing; the others keep their order. */
  lemma DeleteThenList(s: Store, id: string, i: nat)
    requires Valid(s)
    requires i < |s.order| && s.order[i] == id
    ensures var before := ListBooks(s).body.books;
            ListBooks(DeleteBook(s, id).store).body == Records(before[..i] + before[i + 1..])
  {
    Dict.ValuesAfterRemove(s, id, i);
  }

  /** In a reachable store the listing gives each record under its own key,
      so no two listed records share an id. */
  lemma ListedIdsDistinct(s: Store)
    requires Valid(s)
    ensures var listed := ListBooks(s).body.books;
            && |listed| == |s.order|
            && (forall i :: 0 <= i < |listed| ==> listed[i].id == s.order[i])
            && (forall i, j :: 0 <= i < j < |listed| ==> listed[i].id != listed[j].id)
  {
    Dict.ValuesAreEntries(s);
  }
}
