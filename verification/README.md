# Book service: cache-aside over a books table

This project models `BooksServices`, the service layer of a small book API. The
service keeps a durable books table (SQLite through SQLAlchemy) and a Redis
cache of per-book snapshots in step:

- `create_book` inserts a row and then caches it under `book:{id}` for 3600 seconds.
- `get_book` serves the cached snapshot when there is one. Otherwise it reads
  the row, answers 404 when there is none, and caches the row it found.
- `update_book` answers 404 for an unknown key. Otherwise it overwrites title,
  description, author and category, commits, and caches the new row.
- `delete_book` answers 404 for an unknown key. Otherwise it deletes the row,
  commits, and removes the cache entry.
- `get_all_with_limit_books`, `get_all_books` and `get_filtered_books` read the
  table only. Each answers 404 when its result is empty.

The files:

- `books.dfy` (module `Books`): the `Book` row, the create and update payloads,
  the `Result` of an operation (`Ok` or `NotFound` with the detail text of the
  404), and the constants the service uses.
- `table.dfy` (module `Table`): the table as a sequence of rows in ascending
  key order, taken as the order in which the listings return rows (see
  "## Left out" for this assumption). It also holds the lookup by key
  (`ToMap`), the lookup loop (`FindRow`), the key rule for inserts
  (`NextRowId`), and lemmas on how in-place update, delete and append change
  the lookup.
- `service.dfy` (module `Service`): class `BooksServices`. Its field `rows` is
  the table and its field `cache` is the cache, keyed by the id inside
  `book:{id}`. The class has the four state-changing operations and a TTL expiry
  step. `Coherent()` says every cached snapshot equals the committed row under
  its key. Every operation preserves it.
- `queries.dfy` (module `Queries`): the three listings as functions over the
  table. The `.where(...)` chain is a list of clauses (`BuildQuery`), checked
  against a direct statement of what a listed book must satisfy (`Matches`).
  `OFFSET`/`LIMIT` is `Page`.
- `text.dfy` (module `Text`): `ILIKE '%p%'` as ASCII case folding plus
  substring search.
- `protocol.dfy` (module `Protocol`): what a client sees when it chains the
  operations: read-your-writes after create and update, 404 after delete, and
  promotion on a miss.

Modelling decisions:

- New keys are taken to follow SQLite's rule for an integer primary key
  without AUTOINCREMENT: the largest key plus one, or 1 for an empty table. The
  engine is SQLite (`src/config/config_db.py:9`). Whatever the rule, a new key
  is never already in the table.
- Both `skip` and `limit` are plain integers, as in the source, and are passed
  to the store unchecked. A negative `OFFSET` counts as zero. A negative
  `LIMIT` sets no bound. This is how SQLite reads them.
- The JSON round trip through the cache (`jsonable_encoder`, `json.dumps`,
  `json.loads`) returns the `Book` it was given.
- `Coherent()` is kept apart from the class invariant `Valid()`. The service
  works on whatever the cache holds, and a cache hit is returned without a look
  at the table. So `GetBook` is specified for incoherent states too.

Two points of the source that are easy to misread:

- An update assigns only title, description, author and category
  (`src/service/services.py:82-85`). `pages` and `available` keep their old
  values.
- A text filter that is the empty string is skipped, like one that is not given
  (Python truthiness, `src/service/services.py:180-187`). `QueryMeansMatches`
  shows this changes nothing, because `ILIKE '%%'` matches every value.

## Model

| member | source | states |
|---|---|---|
| `Service.BooksServices.CreateBook` | src/service/services.py:19-34 | the new row has the payload's columns under a key absent from the table and above every existing key (1 for an empty table); it is appended and nothing else in the table changes; the cache gains exactly that row under its key; coherence is preserved |
| `Service.BooksServices.GetBook` | src/service/services.py:38-70 | on a hit it returns the cached snapshot (stale or not) and changes nothing; on a miss with an absent key it answers 404 "Book not found!" and changes nothing; on a miss with a present key it returns the row and caches it under that key; the table never changes; coherence is preserved, and under coherence the answer is exactly the table's row or 404 |
| `Service.BooksServices.UpdateBook` | src/service/services.py:74-100 | an absent key answers 404 and changes neither table nor cache, even when a cache entry exists; otherwise the four text columns take the new values while id, pages and available are kept, the row stays in place, no other row changes, and the cache holds the new row; coherence is preserved |
| `Service.BooksServices.DeleteBook` | src/service/services.py:105-123 | an absent key answers 404 and changes nothing, leaving any cache entry in place; otherwise exactly that row leaves the table, the key leaves the cache, the answer is "Book deleted!", and coherence is preserved |
| `Service.BooksServices.Expire` | src/service/services.py:28 | an entry reaching the end of its time to live removes exactly that key from the cache and preserves coherence |
| `Table.FindRow` | src/service/services.py:55-56 | the lookup by key returns the first row carrying the key, and finds nothing exactly when no row carries it |
| `Table.NextRowId` | src/service/services.py:20-23 | the key assigned on insert is above every key in the table, so not in it, and is 1 for an empty table |
| `Table.ToMapKeys` | src/service/services.py:55-56 | the lookup by key holds exactly the keys of the table, each mapped to a row carrying that key |
| `Table.ToMapAt` | src/service/services.py:55-56 | in a table with distinct ascending keys, looking up a row's key yields that row |
| `Table.ToMapReplace` | src/service/services.py:82-90 | overwriting a row in place with its key kept keeps the table ascending and changes the lookup at that key only |
| `Table.ToMapRemove` | src/service/services.py:113-114 | deleting a row removes exactly its key from the lookup |
| `Table.RemoveKeepsAscending` | src/service/services.py:113-114 | deleting a row keeps the keys ascending |
| `Table.AppendRow` | src/service/services.py:20-23 | appending a row keyed above all others keeps the table ascending and adds exactly that key to the lookup |
| `Queries.Page` | src/service/services.py:132 | the page has the length OFFSET/LIMIT gives, at most `limit`, its k-th row is row skip+k of the input, and it is empty exactly when the offset reaches the end or the limit is 0 |
| `Queries.GetAllWithLimit` | src/service/services.py:127-143 | the result is the page of the table, and it is 404 "No book found" exactly when the offset reaches the end of the table or the limit is 0 |
| `Queries.GetAll` | src/service/services.py:147-160 | every row in table order, and 404 "No book found" exactly when the table is empty |
| `Queries.GetAllIsWholePage` | src/service/services.py:150-160 | the full listing equals the page from row 0 as long as the table, and the page from row 0 with no bound |
| `Queries.DefaultListings` | src/service/services.py:126-173 | with the default arguments the plain listing returns the first 20 rows of the table and the unfiltered filtered listing the first 10, each 404 exactly when the table is empty |
| `Queries.BuildQuery` | src/service/services.py:177-196 | a text clause is added exactly when its argument is given and non-empty; a page-bound or availability clause exactly when its argument is given, so 0 and False are applied |
| `Queries.QueryMeansMatches` | src/service/services.py:180-196 | the chained clauses hold of a book exactly when it meets every given filter (case-insensitive substring on title, author and category, inclusive page bounds, equal availability), empty text filters included |
| `Queries.Select` | src/service/services.py:199-200 | the selected rows come from the table and satisfy every clause |
| `Queries.SelectExactly` | src/service/services.py:199-200 | a row is selected exactly when it is in the table and satisfies every clause |
| `Queries.SelectKeepsOrder` | src/service/services.py:199-200 | the selection keeps the table's ascending key order |
| `Queries.SelectNothingRequired` | src/service/services.py:177 | a query with no clauses selects the whole table |
| `Queries.GetFiltered` | src/service/services.py:164-205 | every listed book is in the table and meets every given filter; the result is the page of the selected rows; it is 404 "No book found!" exactly when the offset reaches the end of the selection or the limit is 0 |
| `Queries.FilteredListingComplete` | src/service/services.py:177-205 | a page from row 0 with no bound lists every matching book, in ascending key order |
| `Queries.NoFilterIsPlainListing` | src/service/services.py:177-199 | with no filter given, or only empty text filters, the filtered listing returns the same page as the plain listing |
| `Text.Fold` | src/service/services.py:181 | folding keeps the length, lower-cases each ASCII capital and leaves no capital behind |
| `Text.FoldIdempotent` | src/service/services.py:181 | folding twice is folding once |
| `Text.ILikeIgnoresCase` | src/service/services.py:181-187 | the text match ignores the case of both the column value and the pattern |
| `Text.EmptyPatternMatchesAll` | src/service/services.py:180-187 | the pattern built from an empty string matches every value |
| `Protocol.CreateThenGet` | src/service/services.py:19-70 | a created book is read back exactly as created |
| `Protocol.UpdateThenGet` | src/service/services.py:74-100 | an update succeeds exactly when the key is in the table, and the book read back afterwards is the old row with the four new text columns, even if the cache held an older snapshot |
| `Protocol.DeleteThenGet` | src/service/services.py:105-123 | a delete succeeds exactly when the key is in the table; after a successful delete, or from a coherent state, reading the key answers 404 |
| `Protocol.GetTwice` | src/service/services.py:38-70 | two reads in a row give the same answer, and a successful read leaves that book cached |

## Left out

- Timing and logging: the `time.time()` measurements and `logging.info` calls have no effect on behaviour.
- SQLAlchemy sessions, `select`, `commit` and `refresh` become updates of the `rows` field. The Redis client becomes the `cache` field. FastAPI's `Depends` and `HTTPException` become method parameters and the `NotFound` result, whose HTTP status is always 404.
- Cache keys: the string `book:{id}` is represented by the integer id it contains. The formatting is one-to-one, so nothing is lost.
- JSON encoding: the round trip through `jsonable_encoder`, `json.dumps` and `json.loads` is taken to return the same `Book`. A cached entry is never the empty string, so a present key always counts as a hit.
- Time to live: there is no clock. Expiry after the 3600 seconds given to every cache write is the explicit `Expire` step.
- Concurrency: async/await, concurrent requests and their last-writer-wins races are not modelled. Each operation is one atomic step.
- Store and cache failures: the source catches neither, so partial states, such as a committed row whose cache write failed, are not modelled.
- `ILIKE` details: `%` and `_` typed by the user act as wildcards in the real query. The model treats them as plain characters. Case folding covers ASCII only, as SQLite's does.
- NULL columns: every column is a plain value. An `ILIKE` against NULL, which never matches, is not modelled.
- Row order: the queries have no ORDER BY, and the `Book` table definition is not part of this model (src/models/books.py declares only `Item`). The model assumes a table scan in rowid order, which is ascending key order. With a page bound given, SQLite could instead scan an index on `pages` and return rows in another order. `Queries.SelectKeepsOrder`, `Queries.FilteredListingComplete` (its "ascending key order" part) and the row order that `Queries.Page`, `Queries.GetAllWithLimit`, `Queries.GetAll` and `Queries.GetFiltered` slice rest on this assumption.
- Key assignment: the table is assumed to have an INTEGER PRIMARY KEY without AUTOINCREMENT. `Table.NextRowId` and the "1 for an empty table" and "above every existing key" clauses of `Service.BooksServices.CreateBook` rest on it. With AUTOINCREMENT a deleted largest key would not be reused, but the new key would still be absent from the table.
- Integer width: `book_id`, `pages`, `skip`, `limit`, `min_pages` and `max_pages` are unbounded integers in the model. In the source they are bound as SQLite 64-bit INTEGER parameters, and a Python int outside [-2^63, 2^63-1] makes the database driver raise, which the service lets through as a server error. `Service.BooksServices.GetBook`, `Service.BooksServices.UpdateBook`, `Service.BooksServices.DeleteBook`, `Queries.GetAllWithLimit` and `Queries.GetFiltered` answer with a book, a page or a 404 for such values instead.
- `Table.NextRowId`: does not model SQLite's fallback when the largest key is already 2^63-1. There the store picks an unused key at random.
- The payload schemas `BookCreate` and `BookUpdate` (src/schemas/books.py) are not part of this model. Their fields are taken from how the service uses them. They are the six non-key columns for a create and the four text columns for an update.
- `src/config/config_db.py` is only engine and session configuration. Only the fact that the engine is SQLite is used.
- `src/models/books.py` declares an unrelated `Item` table and has no behaviour. The `Book` columns come from the service.
