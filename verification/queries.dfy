/** The three read-only queries of the book service. They go to the store only
    (never to the cache) and read the table in its scan order. */
module Queries {
  import opened Books
  import opened Text
  import opened Table

  /** Default page sizes of the plain and the filtered listing. */
  const DefaultPageLimit: int := 20
  const DefaultFilterLimit: int := 10

  /** The number of rows `OFFSET skip` passes over; the store reads a negative
      offset as zero. */
  function Offset(skip: int): nat {
    if skip < 0 then 0 else skip
  }

  /** `OFFSET skip LIMIT limit` applied to `s`; a negative limit sets no bound. */
  function Page<T>(s: seq<T>, skip: int, limit: int): (r: seq<T>)
    ensures |r| == if Offset(skip) >= |s| then 0
                   else if 0 <= limit <= |s| - Offset(skip) then limit
                   else |s| - Offset(skip)
    ensures limit >= 0 ==> |r| <= limit
    ensures forall k :: 0 <= k < |r| ==> Offset(skip) + k < |s| && r[k] == s[Offset(skip) + k]
    ensures r == [] <==> Offset(skip) >= |s| || limit == 0
  {
    var from := if Offset(skip) < |s| then Offset(skip) else |s|;
    var to := if limit < 0 || from + limit > |s| then |s| else from + limit;
    s[from..to]
  }

  /** `get_all_with_limit_books`: one page of the table, 404 when it is empty. */
  function GetAllWithLimit(rows: seq<Book>, skip: int, limit: int): (r: Result<seq<Book>>)
    ensures r.NotFound? <==> Offset(skip) >= |rows| || limit == 0
    ensures r.NotFound? ==> r.detail == NoBookFound
    ensures r.Ok? ==> r.value == Page(rows, skip, limit)
  {
    var page := Page(rows, skip, limit);
    if page == [] then NotFound(NoBookFound) else Ok(page)
  }

  /** `get_all_books`: the whole table, 404 when it is empty. */
  function GetAll(rows: seq<Book>): (r: Result<seq<Book>>)
    ensures r.NotFound? <==> rows == []
    ensures r.NotFound? ==> r.detail == NoBookFound
    ensures r.Ok? ==> r.value == rows
  {
    if rows == [] then NotFound(NoBookFound) else Ok(rows)
  }

  /** The full listing is the page that starts at the first row and is as long
      as the table, and also the page with no bound at all. */
  lemma GetAllIsWholePage(rows: seq<Book>)
    ensures GetAll(rows) == GetAllWithLimit(rows, 0, |rows|) == GetAllWithLimit(rows, 0, -1)
  {
    assert rows[0..|rows|] == rows;
  }

  /** The optional filters of `get_filtered_books`. */
  datatype Filter = Filter(
    title: Option<string>,
    author: Option<string>,
    category: Option<string>,
    minPages: Option<int>,
    maxPages: Option<int>,
    available: Option<bool>)

  const NoFilter: Filter := Filter(None, None, None, None, None, None)

  /** One `WHERE` clause added to the query. */
  datatype Clause =
    | TitleLike(pattern: string)
    | AuthorLike(pattern: string)
    | CategoryLike(pattern: string)
    | MinPages(bound: int)
    | MaxPages(bound: int)
    | Availability(flag: bool)

  /** Truthiness of an optional text argument: given and not the empty string. */
  predicate Truthy(t: Option<string>) {
    t.Some? && t.value != ""
  }

  /** The clause `c` is one the filter asks for: a text clause for a truthy
      text argument, a page-bound or availability clause for a given one. */
  predicate Requested(f: Filter, c: Clause) {
    match c
    case TitleLike(p) => Truthy(f.title) && p == f.title.value
    case AuthorLike(p) => Truthy(f.author) && p == f.author.value
    case CategoryLike(p) => Truthy(f.category) && p == f.category.value
    case MinPages(n) => f.minPages == Some(n)
    case MaxPages(n) => f.maxPages == Some(n)
    case Availability(a) => f.available == Some(a)
  }

  /** The clauses the service chains onto `select(Book)`. */
  function BuildQuery(f: Filter): (q: seq<Clause>)
    ensures forall c :: c in q <==> Requested(f, c)
  {
    var title := if Truthy(f.title) then [TitleLike(f.title.value)] else [];
    var author := if Truthy(f.author) then [AuthorLike(f.author.value)] else [];
    var category := if Truthy(f.category) then [CategoryLike(f.category.value)] else [];
    var minPages := if f.minPages.Some? then [MinPages(f.minPages.value)] else [];
    var maxPages := if f.maxPages.Some? then [MaxPages(f.maxPages.value)] else [];
    var available := if f.available.Some? then [Availability(f.available.value)] else [];
    var q := title + author + category + minPages + maxPages + available;
    assert forall c :: c in q <==> Requested(f, c) by {
      forall c ensures c in q <==> Requested(f, c) {
        assert c in q <==>
          c in title || c in author || c in category || c in minPages || c in maxPages || c in available;
      }
    }
    q
  }

  predicate Holds(c: Clause, b: Book) {
    match c
    case TitleLike(p) => ILikeContains(b.title, p)
    case AuthorLike(p) => ILikeContains(b.author, p)
    case CategoryLike(p) => ILikeContains(b.category, p)
    case MinPages(n) => b.pages >= n
    case MaxPages(n) => b.pages <= n
    case Availability(a) => b.available == a
  }

  /** The conjunction of the chained clauses. */
  predicate Satisfies(q: seq<Clause>, b: Book) {
    forall c :: c in q ==> Holds(c, b)
  }

  /** What the listing promises of a returned book: it meets every filter that
      was given, text filters as case-insensitive substrings and the page
      bounds inclusively. */
  predicate Matches(f: Filter, b: Book) {
    && (f.title.Some? ==> ILikeContains(b.title, f.title.value))
    && (f.author.Some? ==> ILikeContains(b.author, f.author.value))
    && (f.category.Some? ==> ILikeContains(b.category, f.category.value))
    && (f.minPages.Some? ==> b.pages >= f.minPages.value)
    && (f.maxPages.Some? ==> b.pages <= f.maxPages.value)
    && (f.available.Some? ==> b.available == f.available.value)
  }

  /** Dropping the empty text filters loses nothing: the query holds of a book
      exactly when the book meets every given filter, empty ones included. */
  lemma QueryMeansMatches(f: Filter, b: Book)
    ensures Satisfies(BuildQuery(f), b) <==> Matches(f, b)
  {
    var q := BuildQuery(f);
    EmptyPatternMatchesAll(b.title);
    EmptyPatternMatchesAll(b.author);
    EmptyPatternMatchesAll(b.category);
    if Satisfies(q, b) {
      if Truthy(f.title) { assert TitleLike(f.title.value) in q; }
      if Truthy(f.author) { assert AuthorLike(f.author.value) in q; }
      if Truthy(f.category) { assert CategoryLike(f.category.value) in q; }
      if f.minPages.Some? { assert MinPages(f.minPages.value) in q; }
      if f.maxPages.Some? { assert MaxPages(f.maxPages.value) in q; }
      if f.available.Some? { assert Availability(f.available.value) in q; }
    }
    if Matches(f, b) {
      forall c | c in q ensures Holds(c, b) {
        assert Requested(f, c);
      }
    }
  }

  /** The rows that satisfy `q`, in table order. */
  function Select(q: seq<Clause>, rows: seq<Book>): (r: seq<Book>)
    ensures |r| <= |rows|
    ensures forall k :: 0 <= k < |r| ==> r[k] in rows && Satisfies(q, r[k])
  {
    if rows == [] then []
    else (if Satisfies(q, rows[0]) then [rows[0]] else []) + Select(q, rows[1..])
  }

  /** A row is selected exactly when it is in the table and satisfies the query. */
  lemma {:induction false} SelectExactly(q: seq<Clause>, rows: seq<Book>, b: Book)
    ensures b in Select(q, rows) <==> b in rows && Satisfies(q, b)
  {
    if rows != [] {
      SelectExactly(q, rows[1..], b);
      assert b in rows <==> b == rows[0] || b in rows[1..];
    }
  }

  /** Selection keeps the table's key order. */
  lemma {:induction false} SelectKeepsOrder(q: seq<Clause>, rows: seq<Book>)
    requires Ascending(rows)
    ensures Ascending(Select(q, rows))
  {
    if rows != [] {
      var tail := Select(q, rows[1..]);
      SelectKeepsOrder(q, rows[1..]);
      forall k | 0 <= k < |tail| ensures rows[0].id < tail[k].id {
        var j :| 0 <= j < |rows[1..]| && rows[1..][j] == tail[k];
        assert rows[j + 1] == tail[k];
      }
    }
  }

  /** The empty conjunction selects the whole table. */
  lemma {:induction false} SelectNothingRequired(rows: seq<Book>)
    ensures Select([], rows) == rows
  {
    if rows != [] {
      SelectNothingRequired(rows[1..]);
    }
  }

  /** `get_filtered_books`: the page of the selected rows, 404 when it is empty. */
  function GetFiltered(rows: seq<Book>, f: Filter, skip: int, limit: int): (r: Result<seq<Book>>)
    ensures r.Ok? ==> forall b :: b in r.value ==> b in rows && Matches(f, b)
    ensures r.Ok? ==> r.value == Page(Select(BuildQuery(f), rows), skip, limit)
    ensures r.NotFound? <==> Offset(skip) >= |Select(BuildQuery(f), rows)| || limit == 0
    ensures r.NotFound? ==> r.detail == NoFilteredBookFound
  {
    var selected := Select(BuildQuery(f), rows);
    var page := Page(selected, skip, limit);
    if page == [] then NotFound(NoFilteredBookFound)
    else
      assert forall b :: b in page ==> b in rows && Matches(f, b) by {
        forall b | b in page ensures b in rows && Matches(f, b) {
          var k :| 0 <= k < |page| && page[k] == b;
          QueryMeansMatches(f, selected[Offset(skip) + k]);
        }
      }
      Ok(page)
  }

  /** Every matching book is listed when the page starts at the first row and
      has no bound, and the listing then keeps the table's key order. */
  lemma FilteredListingComplete(rows: seq<Book>, f: Filter, b: Book)
    requires Ascending(rows)
    requires b in rows && Matches(f, b)
    ensures GetFiltered(rows, f, 0, -1).Ok?
    ensures b in GetFiltered(rows, f, 0, -1).value
    ensures Ascending(GetFiltered(rows, f, 0, -1).value)
  {
    var selected := Select(BuildQuery(f), rows);
    QueryMeansMatches(f, b);
    SelectExactly(BuildQuery(f), rows, b);
    SelectKeepsOrder(BuildQuery(f), rows);
    assert selected[0..|selected|] == selected;
  }

  /** With no filter, or with only empty text filters, the filtered listing
      returns the same page as the plain one. */
  lemma NoFilterIsPlainListing(rows: seq<Book>, f: Filter, skip: int, limit: int)
    requires !Truthy(f.title) && !Truthy(f.author) && !Truthy(f.category)
    requires f.minPages.None? && f.maxPages.None? && f.available.None?
    ensures GetFiltered(rows, f, skip, limit).Ok? == GetAllWithLimit(rows, skip, limit).Ok?
    ensures GetFiltered(rows, f, skip, limit).Ok? ==>
              GetFiltered(rows, f, skip, limit).value == GetAllWithLimit(rows, skip, limit).value
  {
    assert BuildQuery(f) == [];
    SelectNothingRequired(rows);
  }

  /** The calls with default arguments: the plain listing gives the first 20
      rows of the table, the filtered listing with no filter the first 10. */
  lemma DefaultListings(rows: seq<Book>)
    ensures GetAllWithLimit(rows, 0, DefaultPageLimit) ==
              if rows == [] then NotFound(NoBookFound)
              else Ok(rows[..if |rows| < 20 then |rows| else 20])
    ensures GetFiltered(rows, NoFilter, 0, DefaultFilterLimit) ==
              if rows == [] then NotFound(NoFilteredBookFound)
              else Ok(rows[..if |rows| < 10 then |rows| else 10])
  {
    assert BuildQuery(NoFilter) == [] by {
      forall c ensures !Requested(NoFilter, c) { }
    }
    SelectNothingRequired(rows);
  }
}
