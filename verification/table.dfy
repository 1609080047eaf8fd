/** The books table as a sequence of rows in ascending key order. This is the
    rowid order of a table whose integer primary key is its rowid, and it is
    taken to be the order in which a table scan returns the rows. */
module Table {
  import opened Books

  /** Keys strictly increase along the table, so no key occurs twice. */
  predicate Ascending(rows: seq<Book>) {
    forall i, j :: 0 <= i < j < |rows| ==> rows[i].id < rows[j].id
  }

  function Ids(rows: seq<Book>): set<int> {
    set i | 0 <= i < |rows| :: rows[i].id
  }

  /** The table as a lookup by primary key. */
  function ToMap(rows: seq<Book>): map<int, Book> {
    if rows == [] then map[]
    else
      var front, last := rows[..|rows| - 1], rows[|rows| - 1];
      ToMap(front)[last.id := last]
  }

  /** The lookup holds exactly the keys present in the table, each mapped to
      a row that carries that key. */
  lemma {:induction false} ToMapKeys(rows: seq<Book>)
    ensures ToMap(rows).Keys == Ids(rows)
    ensures forall k :: k in ToMap(rows) ==> ToMap(rows)[k].id == k
  {
    if rows != [] {
      var front, last := rows[..|rows| - 1], rows[|rows| - 1];
      ToMapKeys(front);
      forall k | k in Ids(rows) ensures k in Ids(front) + {last.id} {
        var i :| 0 <= i < |rows| && rows[i].id == k;
        if i < |front| { assert front[i] == rows[i]; }
      }
      forall k | k in Ids(front) ensures k in Ids(rows) {
        var i :| 0 <= i < |front| && front[i].id == k;
        assert rows[i] == front[i];
      }
    }
  }

  /** The key the store gives the next inserted row: one more than the largest
      key in the table, or 1 when the table is empty (the rule assumed here: an
      integer primary key without AUTOINCREMENT). */
  function NextRowId(rows: seq<Book>): (id: int)
    requires Ascending(rows)
    ensures id !in Ids(rows)
    ensures forall i :: 0 <= i < |rows| ==> rows[i].id < id
    ensures rows == [] ==> id == 1
  {
    if rows == [] then 1 else rows[|rows| - 1].id + 1
  }

  /** `SELECT ... WHERE id = :id` followed by `.first()`: the position of the
      first row with key `id`, if any. */
  method FindRow(rows: seq<Book>, id: int) returns (found: Option<nat>)
    ensures found.Some? ==> found.value < |rows| && rows[found.value].id == id
    ensures found.Some? ==> forall j :: 0 <= j < found.value ==> rows[j].id != id
    ensures found.None? <==> id !in Ids(rows)
  {
    var i := 0;
    while i < |rows|
      invariant 0 <= i <= |rows|
      invariant forall j :: 0 <= j < i ==> rows[j].id != id
    {
      if rows[i].id == id {
        return Some(i);
      }
      i := i + 1;
    }
    return None;
  }

  /** In an ascending table the lookup by key yields the row at that key. */
  lemma {:induction false} ToMapAt(rows: seq<Book>, i: nat)
    requires Ascending(rows)
    requires i < |rows|
    ensures rows[i].id in ToMap(rows) && ToMap(rows)[rows[i].id] == rows[i]
  {
    var front, last := rows[..|rows| - 1], rows[|rows| - 1];
    if i < |front| {
      assert front[i] == rows[i];
      ToMapAt(front, i);
      assert rows[i].id < last.id;
    }
  }

  /** Overwriting a row in place, key kept, overwrites that key of the lookup. */
  lemma {:induction false} ToMapReplace(rows: seq<Book>, i: nat, b: Book)
    requires Ascending(rows)
    requires i < |rows| && b.id == rows[i].id
    ensures Ascending(rows[i := b])
    ensures ToMap(rows[i := b]) == ToMap(rows)[b.id := b]
  {
    var n := |rows| - 1;
    var front, last := rows[..n], rows[n];
    var rows' := rows[i := b];
    if i < n {
      assert front[i] == rows[i];
      ToMapReplace(front, i, b);
      assert rows'[..n] == front[i := b];
      assert rows'[n] == last;
      assert b.id != last.id;
      calc {
        ToMap(rows');
        ToMap(front[i := b])[last.id := last];
        ToMap(front)[b.id := b][last.id := last];
        ToMap(front)[last.id := last][b.id := b];
      }
    } else {
      assert rows'[..n] == front;
    }
  }

  /** Deleting a row removes exactly its key from the lookup. */
  lemma {:induction false} ToMapRemove(rows: seq<Book>, i: nat)
    requires Ascending(rows)
    requires i < |rows|
    ensures ToMap(rows[..i] + rows[i + 1..]) == ToMap(rows) - {rows[i].id}
  {
    var n := |rows| - 1;
    if i == n {
      assert rows[..i] + rows[i + 1..] == rows[..n];
      RemoveLast(rows);
    } else {
      assert rows[..n][i] == rows[i];
      ToMapRemove(rows[..n], i);
      RemoveBeforeLast(rows, i);
    }
  }

  /** The step of ToMapRemove for a row before the last: the last row is put
      back on top of the shorter table. */
  lemma RemoveBeforeLast(rows: seq<Book>, i: nat)
    requires Ascending(rows)
    requires i < |rows| - 1
    requires var front := rows[..|rows| - 1];
      ToMap(front[..i] + front[i + 1..]) == ToMap(front) - {rows[i].id}
    ensures ToMap(rows[..i] + rows[i + 1..]) == ToMap(rows) - {rows[i].id}
  {
    var n := |rows| - 1;
    var front, last := rows[..n], rows[n];
    var rows' := rows[..i] + rows[i + 1..];
    var shorter := front[..i] + front[i + 1..];
    assert rows[..i] == front[..i];
    assert rows[i + 1..] == front[i + 1..] + [last];
    assert rows' == shorter + [last];
    assert rows'[..|rows'| - 1] == shorter;
    assert rows[i].id != last.id;
    calc {
      ToMap(rows');
      ToMap(shorter)[last.id := last];
      (ToMap(front) - {rows[i].id})[last.id := last];
      ToMap(front)[last.id := last] - {rows[i].id};
    }
  }

  /** A key no row carries is not in the lookup. */
  lemma {:induction false} AbsentKey(rows: seq<Book>, k: int)
    requires forall i :: 0 <= i < |rows| ==> rows[i].id != k
    ensures k !in ToMap(rows)
  {
    if rows != [] {
      AbsentKey(rows[..|rows| - 1], k);
    }
  }

  /** Dropping the last row of an ascending table drops its key. */
  lemma RemoveLast(rows: seq<Book>)
    requires Ascending(rows)
    requires rows != []
    ensures ToMap(rows[..|rows| - 1]) == ToMap(rows) - {rows[|rows| - 1].id}
  {
    var front, last := rows[..|rows| - 1], rows[|rows| - 1];
    forall i | 0 <= i < |front| ensures front[i].id != last.id {
      assert front[i] == rows[i];
    }
    AbsentKey(front, last.id);
    var m := ToMap(front);
    assert ToMap(rows) == m[last.id := last];
    assert m[last.id := last] - {last.id} == m;
  }

  /** Deleting a row keeps the table ascending. */
  lemma RemoveKeepsAscending(rows: seq<Book>, i: nat)
    requires Ascending(rows)
    requires i < |rows|
    ensures Ascending(rows[..i] + rows[i + 1..])
  {
    var rows' := rows[..i] + rows[i + 1..];
    forall j, k | 0 <= j < k < |rows'| ensures rows'[j].id < rows'[k].id {
      var j' := if j < i then j else j + 1;
      var k' := if k < i then k else k + 1;
      assert rows'[j] == rows[j'] && rows'[k] == rows[k'];
    }
  }

  /** Appending a row with a key above all others keeps the table ascending and
      adds exactly that key to the lookup. */
  lemma AppendRow(rows: seq<Book>, b: Book)
    requires Ascending(rows)
    requires forall i :: 0 <= i < |rows| ==> rows[i].id < b.id
    ensures Ascending(rows + [b])
    ensures ToMap(rows + [b]) == ToMap(rows)[b.id := b]
  {
    assert (rows + [b])[..|rows|] == rows;
  }
}
