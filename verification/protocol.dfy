/** What a client of the book service observes when it chains the service's
    operations: its own writes are read back, and a deleted book stays gone. */
module Protocol {
  import opened Books
  import opened Service

  /** A created book is read back as created, from the cache. */
  method CreateThenGet(svc: BooksServices, draft: Draft) returns (created: Book, fetched: Result<Book>)
    requires svc.Valid()
    modifies svc
    ensures svc.Valid()
    ensures created == Stored(created.id, draft)
    ensures fetched == Ok(created)
  {
    created := svc.CreateBook(draft);
    fetched := svc.GetBook(created.id);
  }

  /** An updated book is read back with the new text columns, even when the
      cache held an older snapshot before the update. */
  method UpdateThenGet(svc: BooksServices, id: int, changes: Changes)
      returns (updated: Result<Book>, fetched: Result<Book>)
    requires svc.Valid()
    modifies svc
    ensures svc.Valid()
    ensures updated.Ok? <==> id in old(svc.Db())
    ensures updated.Ok? ==> fetched == updated && Revised(old(svc.Db())[id], changes) == updated.value
    ensures updated.NotFound? ==> updated.detail == BookNotFound
  {
    updated := svc.UpdateBook(id, changes);
    fetched := svc.GetBook(id);
  }

  /** After a successful delete, reading the key yields 404, whatever the cache
      held. A delete of a key absent from the table leaves the cache alone, so a
      stale snapshot under that key is still served unless the cache agreed
      with the table. */
  method DeleteThenGet(svc: BooksServices, id: int) returns (deleted: Result<string>, fetched: Result<Book>)
    requires svc.Valid()
    modifies svc
    ensures svc.Valid()
    ensures deleted.Ok? <==> id in old(svc.Db())
    ensures deleted.Ok? ==> fetched == NotFound(BookNotFound)
    ensures old(svc.Coherent()) ==> fetched == NotFound(BookNotFound)
  {
    deleted := svc.DeleteBook(id);
    fetched := svc.GetBook(id);
  }

  /** A miss promotes the row: the second read is served from the cache and
      returns what the first read returned. */
  method GetTwice(svc: BooksServices, id: int) returns (first: Result<Book>, second: Result<Book>)
    requires svc.Valid()
    modifies svc
    ensures svc.Valid()
    ensures second == first
    ensures first.Ok? ==> id in svc.cache && svc.cache[id] == first.value
  {
    first := svc.GetBook(id);
    second := svc.GetBook(id);
  }
}
