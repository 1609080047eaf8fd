/** The cache-aside book service: the books table of the store and the cache
    of per-book snapshots, kept in step by create, get, update and delete. */
module Service {
  import opened Books
  import opened Table

  class BooksServices {
    /** The books table, in ascending key order. */
    var rows: seq<Book>
    /** The cache: the entry under key `book:{id}` is held at `cache[id]`. */
    var cache: map<int, Book>

    ghost predicate Valid()
      reads this
    {
      Ascending(rows)
    }

    /** The table as a lookup by primary key. */
    function Db(): map<int, Book>
      reads this
    {
      ToMap(rows)
    }

    /** Every cached snapshot is the committed row under the same key. */
    ghost predicate Coherent()
      reads this
    {
      forall id :: id in cache ==> id in Db() && cache[id] == Db()[id]
    }

    /** A service over an existing table and an existing cache, which may hold
        snapshots the table no longer agrees with. */
    constructor (rows: seq<Book>, cache: map<int, Book>)
      requires Ascending(rows)
      ensures Valid()
      ensures this.rows == rows && this.cache == cache
    {
      this.rows := rows;
      this.cache := cache;
    }

    /** `create_book`: insert the row, then cache it under its new key. */
    method CreateBook(draft: Draft) returns (book: Book)
      requires Valid()
      modifies this
      ensures Valid()
      ensures book == Stored(book.id, draft)
      ensures book.id !in old(Db())
      ensures forall k :: k in old(Db()) ==> k < book.id
      ensures old(rows) == [] ==> book.id == 1
      ensures rows == old(rows) + [book]
      ensures Db() == old(Db())[book.id := book]
      ensures cache == old(cache)[book.id := book]
      ensures old(Coherent()) ==> Coherent()
    {
      ToMapKeys(rows);
      var id := NextRowId(rows);
      book := Stored(id, draft);
      AppendRow(rows, book);
      rows := rows + [book];
      cache := cache[id := book];
    }

    /** `get_book`: the cached snapshot when there is one, otherwise the row,
        which is then cached; 404 when neither exists. */
    method GetBook(id: int) returns (r: Result<Book>)
      requires Valid()
      modifies this`cache
      ensures rows == old(rows)
      ensures id in old(cache) ==> r == Ok(old(cache)[id]) && cache == old(cache)
      ensures id !in old(cache) && id !in Db() ==>
                r == NotFound(BookNotFound) && cache == old(cache)
      ensures id !in old(cache) && id in Db() ==>
                r == Ok(Db()[id]) && Db()[id].id == id && cache == old(cache)[id := Db()[id]]
      ensures old(Coherent()) ==> Coherent()
      ensures old(Coherent()) ==> r == if id in Db() then Ok(Db()[id]) else NotFound(BookNotFound)
    {
      if id in cache {
        return Ok(cache[id]);
      }
      ToMapKeys(rows);
      var found := FindRow(rows, id);
      if found.None? {
        return NotFound(BookNotFound);
      }
      var book := rows[found.value];
      ToMapAt(rows, found.value);
      cache := cache[id := book];
      return Ok(book);
    }

    /** `update_book`: overwrite title, description, author and category of the
        row in place, commit, then cache the new row; 404 when the key is absent. */
    method UpdateBook(id: int, changes: Changes) returns (r: Result<Book>)
      requires Valid()
      modifies this
      ensures Valid()
      ensures id !in old(Db()) ==>
                r == NotFound(BookNotFound) && rows == old(rows) && cache == old(cache)
      ensures id in old(Db()) ==> r.Ok?
      ensures r.Ok? ==>
                var before, after := old(Db())[id], r.value;
                && after.id == before.id == id
                && after.title == changes.title && after.description == changes.description
                && after.author == changes.author && after.category == changes.category
                && after.pages == before.pages && after.available == before.available
                && Db() == old(Db())[id := after]
                && cache == old(cache)[id := after]
                && |rows| == |old(rows)|
                && forall i :: 0 <= i < |rows| ==>
                     rows[i] == if old(rows)[i].id == id then after else old(rows)[i]
      ensures old(Coherent()) ==> Coherent()
    {
      ToMapKeys(rows);
      var found := FindRow(rows, id);
      if found.None? {
        return NotFound(BookNotFound);
      }
      var i := found.value;
      ToMapAt(rows, i);
      var book := Revised(rows[i], changes);
      ToMapReplace(rows, i, book);
      rows := rows[i := book];
      cache := cache[id := book];
      return Ok(book);
    }

    /** `delete_book`: delete the row, commit, then remove the cache entry;
        404 when the key is absent. */
    method DeleteBook(id: int) returns (r: Result<string>)
      requires Valid()
      modifies this
      ensures Valid()
      ensures id !in old(Db()) ==>
                r == NotFound(BookNotFound) && rows == old(rows) && cache == old(cache)
      ensures id in old(Db()) ==>
                && r == Ok(BookDeleted)
                && Db() == old(Db()) - {id}
                && cache == old(cache) - {id}
                && exists i :: 0 <= i < |old(rows)| && old(rows)[i].id == id &&
                                rows == old(rows)[..i] + old(rows)[i + 1..]
      ensures old(Coherent()) ==> Coherent()
    {
      ToMapKeys(rows);
      var found := FindRow(rows, id);
      if found.None? {
        return NotFound(BookNotFound);
      }
      var i := found.value;
      ToMapRemove(rows, i);
      RemoveKeepsAscending(rows, i);
      rows := rows[..i] + rows[i + 1..];
      cache := cache - {id};
      return Ok(BookDeleted);
    }

    /** The cache entry for `id` reaching the end of the 3600 seconds it was
        written with. */
    method Expire(id: int)
      modifies this`cache
      ensures cache == old(cache) - {id}
      ensures old(Coherent()) ==> Coherent()
    {
      cache := cache - {id};
    }
  }
}
