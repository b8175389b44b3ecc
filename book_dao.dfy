/** `JdbcBookDAO`: the `books` table as a sequence of rows in insertion order
    and the identity column's next value. Every SQL statement of the DAO is a
    function of the rows or a transition of them. */
module BookDao {
  import opened Platform
  import opened Sequences
  import opened LibraryBook

  /** A row of `books`: the generated id and the four inserted columns. */
  datatype BookRow = BookRow(
    id: int,
    title: Option<string>,
    author: Option<string>,
    publicationYear: int32,
    coverFilename: Option<string>)

  /** `BookRowMapper.mapRow`: a book holding the row's columns. */
  function MapRow(row: BookRow): BookValue
  {
    BookValue(Some(row.id), row.title, row.author, row.publicationYear, row.coverFilename)
  }

  /** The row `INSERT INTO books` adds for a book, under the generated id;
      reading it back gives the book with its new id. */
  function InsertedRow(book: BookValue, id: int): (r: BookRow)
    ensures r.id == id
    ensures MapRow(r) == book.(id := Some(id))
  {
    BookRow(id, book.title, book.author, book.year, book.coverImageFilename)
  }

  /** `WHERE title = :title`: SQL equality, which no NULL satisfies. */
  predicate TitleMatches(row: BookRow, title: Option<string>)
  {
    title.Some? && row.title == title
  }

  function WithTitle(title: Option<string>): BookRow -> bool
  {
    (row: BookRow) => TitleMatches(row, title)
  }

  function WithoutTitle(title: Option<string>): BookRow -> bool
  {
    (row: BookRow) => !TitleMatches(row, title)
  }

  function WithIdIn(ids: seq<int>): BookRow -> bool
  {
    (row: BookRow) => row.id in ids
  }

  /** Ids strictly increase along the table: each row got a fresh, larger id. */
  predicate IdsIncreasing(rows: seq<BookRow>)
  {
    forall i, j :: 0 <= i < j < |rows| ==> rows[i].id < rows[j].id
  }

  /** The table holds rows with positive ids below the next identity value. */
  predicate TableInvariant(rows: seq<BookRow>, nextId: int)
  {
    nextId >= 1 && IdsIncreasing(rows) && forall k :: 0 <= k < |rows| ==> 1 <= rows[k].id < nextId
  }

  /** Removing rows keeps the ids increasing. */
  lemma {:induction false} FilterKeepsIdsIncreasing(keep: BookRow -> bool, rows: seq<BookRow>)
    requires IdsIncreasing(rows)
    ensures IdsIncreasing(Filter(keep, rows))
  {
    if rows != [] {
      var tail := rows[1..];
      assert IdsIncreasing(tail) by {
        forall i, j | 0 <= i < j < |tail| ensures tail[i].id < tail[j].id {
          assert tail[i] == rows[i + 1] && tail[j] == rows[j + 1];
        }
      }
      FilterKeepsIdsIncreasing(keep, tail);
      var rest := Filter(keep, tail);
      forall k | 0 <= k < |rest| ensures rows[0].id < rest[k].id {
        var m :| 0 <= m < |tail| && tail[m] == rest[k];
        assert tail[m] == rows[m + 1];
      }
      if keep(rows[0]) {
        assert Filter(keep, rows) == [rows[0]] + rest;
        IdsIncreasingPrepend(rows[0], rest);
      } else {
        assert Filter(keep, rows) == rest;
      }
    }
  }

  /** A row whose id is below every id of an increasing table can be put
      in front of it. */
  lemma IdsIncreasingPrepend(row: BookRow, rows: seq<BookRow>)
    requires IdsIncreasing(rows)
    requires forall k :: 0 <= k < |rows| ==> row.id < rows[k].id
    ensures IdsIncreasing([row] + rows)
  {
    var qs := [row] + rows;
    assert forall k :: 0 < k < |qs| ==> qs[k] == rows[k - 1];
  }

  /** Row `k` is the one and only row whose title is `title`. */
  predicate OnlyMatch(rows: seq<BookRow>, title: Option<string>, k: int)
  {
    0 <= k < |rows| && TitleMatches(rows[k], title)
    && forall j :: 0 <= j < |rows| && j != k ==> !TitleMatches(rows[j], title)
  }

  /** `SELECT * FROM books WHERE title = :title` read with `queryForObject`:
      no row gives empty, one row gives its book, more than one row is an
      error. */
  function TitleQuery(rows: seq<BookRow>, title: Option<string>): (r: Result<Option<BookValue>>)
    ensures r == Ok(None) <==> forall k :: 0 <= k < |rows| ==> !TitleMatches(rows[k], title)
    ensures r.Ok? && r.value.Some? ==>
      exists k :: 0 <= k < |rows| && TitleMatches(rows[k], title) && r.value.value == MapRow(rows[k])
    ensures r.Err? ==> r.error.IncorrectResultSize? && r.error.actual >= 2
    ensures forall k :: OnlyMatch(rows, title, k) ==> r == Ok(Some(MapRow(rows[k])))
    ensures (exists i, j :: 0 <= i < j < |rows| && TitleMatches(rows[i], title) && TitleMatches(rows[j], title))
      ==> r.Err?
  {
    TitleQueryCases(rows, title);
    var matches := Filter(WithTitle(title), rows);
    if |matches| == 0 then Ok(None)
    else if |matches| == 1 then
      assert matches[0] in rows;
      Ok(Some(MapRow(matches[0])))
    else
      assert matches[0] in rows;
      Err(IncorrectResultSize(1, |matches|))
  }

  /** One matching row is what the title filter keeps alone; two matching
      rows make it keep at least two. */
  lemma TitleQueryCases(rows: seq<BookRow>, title: Option<string>)
    ensures forall k :: OnlyMatch(rows, title, k) ==> Filter(WithTitle(title), rows) == [rows[k]]
    ensures (exists i, j :: 0 <= i < j < |rows| && TitleMatches(rows[i], title) && TitleMatches(rows[j], title))
      ==> |Filter(WithTitle(title), rows)| >= 2
  {
    forall k | OnlyMatch(rows, title, k)
      ensures Filter(WithTitle(title), rows) == [rows[k]]
    {
      FilterOnly(WithTitle(title), rows, k);
    }
    if exists i, j :: 0 <= i < j < |rows| && TitleMatches(rows[i], title) && TitleMatches(rows[j], title) {
      var i, j :| 0 <= i < j < |rows| && TitleMatches(rows[i], title) && TitleMatches(rows[j], title);
      FilterTwo(WithTitle(title), rows, i, j);
    }
  }

  /** `UPDATE books SET author, publication_year, cover_filename WHERE id = :id`:
      the row with the book's id gets its author, year and cover and keeps
      its id and title; every other row stays as it was, so without such a
      row nothing changes. */
  function UpdateRows(rows: seq<BookRow>, book: BookValue): (r: seq<BookRow>)
    ensures |r| == |rows|
    ensures forall k :: 0 <= k < |rows| ==> r[k].id == rows[k].id && r[k].title == rows[k].title
    ensures forall k :: 0 <= k < |rows| && book.id == Some(rows[k].id) ==>
      r[k].author == book.author && r[k].publicationYear == book.year
      && r[k].coverFilename == book.coverImageFilename
    ensures forall k :: 0 <= k < |rows| && book.id != Some(rows[k].id) ==> r[k] == rows[k]
    ensures (forall k :: 0 <= k < |rows| ==> book.id != Some(rows[k].id)) ==> r == rows
  {
    Map((row: BookRow) =>
      if book.id == Some(row.id)
      then row.(author := book.author, publicationYear := book.year, coverFilename := book.coverImageFilename)
      else row,
      rows)
  }

  /** `DELETE FROM books WHERE title = :title`. */
  function DeleteRows(rows: seq<BookRow>, title: Option<string>): (r: seq<BookRow>)
    ensures forall k :: 0 <= k < |r| ==> !TitleMatches(r[k], title) && r[k] in rows
    ensures forall k :: 0 <= k < |rows| && !TitleMatches(rows[k], title) ==> rows[k] in r
  {
    Filter(WithoutTitle(title), rows)
  }

  /** After the delete no row has the title, and deleting again changes
      nothing; a title no row has leaves the table as it was. */
  lemma DeleteRowsEffect(rows: seq<BookRow>, title: Option<string>)
    ensures TitleQuery(DeleteRows(rows, title), title) == Ok(None)
    ensures DeleteRows(DeleteRows(rows, title), title) == DeleteRows(rows, title)
    ensures (forall k :: 0 <= k < |rows| ==> !TitleMatches(rows[k], title)) ==> DeleteRows(rows, title) == rows
  {
    FilterIdempotent(WithoutTitle(title), rows);
    if forall k :: 0 <= k < |rows| ==> !TitleMatches(rows[k], title) {
      FilterKeepsAll(WithoutTitle(title), rows);
    }
  }

  /** `b` is the book of some row whose id is listed. */
  predicate FromListedRow(rows: seq<BookRow>, ids: seq<int>, b: BookValue)
  {
    exists j :: 0 <= j < |rows| && rows[j].id in ids && b == MapRow(rows[j])
  }

  /** Books read from rows with increasing ids carry distinct ids. */
  lemma MappedIdsDistinct(rows: seq<BookRow>)
    requires IdsIncreasing(rows)
    ensures var r := Map(MapRow, rows); forall i, j :: 0 <= i < j < |r| ==> r[i].id != r[j].id
  {
    var r := Map(MapRow, rows);
    forall i, j | 0 <= i < j < |r| ensures r[i].id != r[j].id {
      assert r[i].id == Some(rows[i].id) && r[j].id == Some(rows[j].id);
    }
  }

  /** `findByIds`: nothing for an empty list, otherwise the rows whose id is
      listed. */
  function IdsQuery(rows: seq<BookRow>, ids: seq<int>): (r: seq<BookValue>)
    ensures ids == [] ==> r == []
    ensures forall k :: 0 <= k < |r| ==> r[k].id.Some? && r[k].id.value in ids
    ensures forall k :: 0 <= k < |rows| && rows[k].id in ids ==> MapRow(rows[k]) in r
    ensures forall k :: 0 <= k < |r| ==> FromListedRow(rows, ids, r[k])
    ensures |r| <= |rows|
    ensures IdsIncreasing(rows) ==> forall i, j :: 0 <= i < j < |r| ==> r[i].id != r[j].id
  {
    if ids == [] then []
    else
      var found := Filter(WithIdIn(ids), rows);
      var r := Map(MapRow, found);
      assert IdsIncreasing(rows) ==> forall i, j :: 0 <= i < j < |r| ==> r[i].id != r[j].id by {
        if IdsIncreasing(rows) {
          FilterKeepsIdsIncreasing(WithIdIn(ids), rows);
          MappedIdsDistinct(found);
        }
      }
      assert forall k :: 0 <= k < |rows| && rows[k].id in ids ==> MapRow(rows[k]) in r by {
        forall k | 0 <= k < |rows| && rows[k].id in ids ensures MapRow(rows[k]) in r {
          var m :| 0 <= m < |found| && found[m] == rows[k];
          assert r[m] == MapRow(rows[k]);
        }
      }
      assert forall k :: 0 <= k < |r| ==> FromListedRow(rows, ids, r[k]) by {
        forall k | 0 <= k < |r| ensures FromListedRow(rows, ids, r[k]) {
          var j :| 0 <= j < |rows| && rows[j] == found[k];
        }
      }
      r
  }

  /** Saving a book whose title no row has makes `findByTitle` return that
      book, equal on every field and carrying its new id. */
  lemma SaveThenFindByTitle(rows: seq<BookRow>, book: BookValue, id: int)
    requires book.title.Some?
    requires TitleQuery(rows, book.title) == Ok(None)
    ensures TitleQuery(rows + [InsertedRow(book, id)], book.title) == Ok(Some(book.(id := Some(id))))
  {
    var row := InsertedRow(book, id);
    FilterAppend(WithTitle(book.title), rows, [row]);
    assert Filter(WithTitle(book.title), rows) == [];
    assert Filter(WithTitle(book.title), [row]) == [row];
  }

  class JdbcBookDao {
    var rows: seq<BookRow>
    var nextId: int

    predicate Valid()
      reads this
    {
      TableInvariant(rows, nextId)
    }

    /** A DAO over an empty table whose identity starts at 1. */
    constructor ()
      ensures rows == [] && nextId == 1
      ensures Valid()
    {
      rows := [];
      nextId := 1;
    }

    /** `save`: inserts the book's columns under the next id and writes that
        id back into the book. */
    method Save(book: Book)
      requires Valid()
      modifies this, book
      ensures Valid()
      ensures rows == old(rows) + [InsertedRow(old(book.Value()), old(nextId))]
      ensures nextId == old(nextId) + 1
      ensures book.Value() == old(book.Value()).(id := Some(old(nextId)))
      ensures book.id.Some? && book.id.value > 0
    {
      var id := nextId;
      rows := rows + [InsertedRow(book.Value(), id)];
      nextId := nextId + 1;
      book.SetId(Some(id));
    }

    /** `findAll`: one book per row. */
    function FindAll(): (r: seq<BookValue>)
      reads this
      ensures |r| == |rows|
      ensures forall k :: 0 <= k < |rows| ==> r[k] == MapRow(rows[k])
    {
      Map(MapRow, rows)
    }

    /** `findByTitle`: empty when no row has the title, the book of the one
        row that has it, `IncorrectResultSizeDataAccessException` when two
        rows have it. */
    function FindByTitle(title: Option<string>): (r: Result<Option<BookValue>>)
      reads this
      ensures r == Ok(None) <==> forall k :: 0 <= k < |rows| ==> !TitleMatches(rows[k], title)
      ensures forall k :: OnlyMatch(rows, title, k) ==> r == Ok(Some(MapRow(rows[k])))
      ensures (exists i, j :: 0 <= i < j < |rows| && TitleMatches(rows[i], title) && TitleMatches(rows[j], title))
        ==> r.Err? && r.error.IncorrectResultSize? && r.error.actual >= 2
    {
      TitleQuery(rows, title)
    }

    /** `update`: changes author, year and cover of the row with the book's id. */
    method Update(book: Book)
      requires Valid()
      modifies this
      ensures Valid()
      ensures rows == UpdateRows(old(rows), book.Value()) && nextId == old(nextId)
    {
      rows := UpdateRows(rows, book.Value());
    }

    /** `deleteByTitle`: removes every row with the title. */
    method DeleteByTitle(title: Option<string>)
      requires Valid()
      modifies this
      ensures Valid()
      ensures rows == DeleteRows(old(rows), title) && nextId == old(nextId)
    {
      FilterKeepsIdsIncreasing(WithoutTitle(title), rows);
      rows := DeleteRows(rows, title);
    }

    /** `findByIds`: the books of exactly the rows whose id is listed, and
        none for an empty list. */
    function FindByIds(ids: seq<int>): (r: seq<BookValue>)
      reads this
      ensures ids == [] ==> r == []
      ensures forall k :: 0 <= k < |rows| && rows[k].id in ids ==> MapRow(rows[k]) in r
      ensures forall k :: 0 <= k < |r| ==> FromListedRow(rows, ids, r[k])
      ensures |r| <= |rows|
      ensures Valid() ==> forall i, j :: 0 <= i < j < |r| ==> r[i].id != r[j].id
    {
      IdsQuery(rows, ids)
    }
  }
}
