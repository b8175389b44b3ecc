/** `BookService`: the library's business rules over the book DAO. */
module LibraryService {
  import opened Platform
  import opened JavaStrings
  import opened Sequences
  import opened LibraryBook
  import opened BookDao

  const NotFoundSuffix := " nie została znaleziona."

  /** The message `getBookByTitle` throws with; a null title prints as
      `null`. */
  function NotFoundMessage(title: Option<string>): (m: string)
    ensures Contains(m, NotFoundSuffix)
    ensures StartsWith(m, "Książka o tytule: ")
  {
    var head := "Książka o tytule: " + NullableText(title);
    assert OccursAt(head + NotFoundSuffix, NotFoundSuffix, |head|);
    head + NotFoundSuffix
  }

  /** `book.getAuthor().equalsIgnoreCase(author)` with a non-null author on
      the left; a null argument equals nothing. */
  function AuthorIs(author: Option<string>): BookValue -> bool
  {
    (b: BookValue) => b.author.Some? && author.Some? && EqualsIgnoreCase(b.author.value, author.value)
  }

  /** `findBooksByAuthor` over the given books: the books whose author equals
      the argument ignoring case, in order. A book with no author makes the
      filter throw. */
  function BooksByAuthor(books: seq<BookValue>, author: Option<string>): (r: Result<seq<BookValue>>)
    ensures r.Err? <==> exists k :: 0 <= k < |books| && books[k].author.None?
    ensures r.Err? ==> r.error == NullPointer
    ensures r.Ok? ==> forall k :: 0 <= k < |r.value| ==>
      r.value[k] in books && author.Some? && EqualsIgnoreCase(r.value[k].author.value, author.value)
    ensures r.Ok? && author.Some? ==>
      forall k :: 0 <= k < |books| && EqualsIgnoreCase(books[k].author.value, author.value) ==> books[k] in r.value
  {
    if exists k :: 0 <= k < |books| && books[k].author.None? then Err(NullPointer)
    else Ok(Filter(AuthorIs(author), books))
  }

  /** The author filter ignores case: asking for an author in any case, or
      lower-cased, finds the same books. */
  lemma BooksByAuthorIgnoresCase(books: seq<BookValue>, author: string)
    ensures BooksByAuthor(books, Some(author)) == BooksByAuthor(books, Some(ToLower(author)))
  {
    ToLowerIdempotent(author);
    if forall k :: 0 <= k < |books| ==> books[k].author.Some? {
      FilterCongruent(AuthorIs(Some(author)), AuthorIs(Some(ToLower(author))), books);
    }
  }

  /** The filter keeps the order of the books: filtering a concatenation
      filters each part. */
  lemma BooksByAuthorKeepsOrder(a: seq<BookValue>, b: seq<BookValue>, author: Option<string>)
    requires BooksByAuthor(a, author).Ok? && BooksByAuthor(b, author).Ok?
    ensures BooksByAuthor(a + b, author) == Ok(BooksByAuthor(a, author).value + BooksByAuthor(b, author).value)
  {
    FilterAppend(AuthorIs(author), a, b);
    assert forall k :: 0 <= k < |a + b| ==> (a + b)[k] == if k < |a| then a[k] else b[k - |a|];
  }

  /** `getBookByTitle` over the table: the DAO's match, or an
      `IllegalArgumentException` when there is none. */
  function BookByTitle(rows: seq<BookRow>, title: Option<string>): (r: Result<BookValue>)
    ensures r.Ok? ==>
      r.value.title == title && title.Some? && exists k :: 0 <= k < |rows| && r.value == MapRow(rows[k])
    ensures TitleQuery(rows, title) == Ok(None) <==> r == Err(IllegalArgument(NotFoundMessage(title)))
    ensures r.Ok? <==> TitleQuery(rows, title).Ok? && TitleQuery(rows, title).value.Some?
  {
    match TitleQuery(rows, title)
    case Err(e) => Err(e)
    case Ok(None) => Err(IllegalArgument(NotFoundMessage(title)))
    case Ok(Some(b)) => Ok(b)
  }

  class BookService {
    const bookDao: JdbcBookDao

    constructor (bookDao: JdbcBookDao)
      ensures this.bookDao == bookDao
    {
      this.bookDao := bookDao;
    }

    /** `addBook`: saves the book once, with no further check. */
    method AddBook(book: Book)
      requires bookDao.Valid()
      modifies bookDao, book
      ensures bookDao.Valid()
      ensures bookDao.rows == old(bookDao.rows) + [InsertedRow(old(book.Value()), old(bookDao.nextId))]
      ensures bookDao.nextId == old(bookDao.nextId) + 1
      ensures book.Value() == old(book.Value()).(id := Some(old(bookDao.nextId)))
    {
      bookDao.Save(book);
    }

    /** `getAllBooks`: one book per row, in table order. */
    function GetAllBooks(): (r: seq<BookValue>)
      reads bookDao
      ensures |r| == |bookDao.rows|
      ensures forall k :: 0 <= k < |r| ==> r[k] == MapRow(bookDao.rows[k])
    {
      bookDao.FindAll()
    }

    /** `findBooksByAuthor`: the stored books whose author equals the
        argument ignoring case; a stored book with no author makes it throw. */
    function FindBooksByAuthor(author: Option<string>): (r: Result<seq<BookValue>>)
      reads bookDao
      ensures r.Err? <==> exists k :: 0 <= k < |bookDao.rows| && bookDao.rows[k].author.None?
      ensures r.Ok? ==> forall k :: 0 <= k < |r.value| ==>
        r.value[k] in GetAllBooks() && author.Some? && EqualsIgnoreCase(r.value[k].author.value, author.value)
    {
      BooksByAuthor(GetAllBooks(), author)
    }

    /** `getTotalBooks`: the number of rows in the table. */
    function GetTotalBooks(): (n: nat)
      reads bookDao
      ensures n == |bookDao.rows|
    {
      |GetAllBooks()|
    }

    /** `getBookByTitle`: the stored book with that title; an
        `IllegalArgumentException` when none has it. */
    function GetBookByTitle(title: Option<string>): (r: Result<BookValue>)
      reads bookDao
      ensures r.Ok? ==> r.value.title == title && exists k :: 0 <= k < |bookDao.rows| && r.value == MapRow(bookDao.rows[k])
      ensures (forall k :: 0 <= k < |bookDao.rows| ==> !TitleMatches(bookDao.rows[k], title)) <==>
        r == Err(IllegalArgument(NotFoundMessage(title)))
    {
      BookByTitle(bookDao.rows, title)
    }

    /** `updateBook`: fails, changing nothing, unless a book has the title;
        then updates the row with the book's id. */
    method UpdateBook(book: Book) returns (c: Completion)
      requires bookDao.Valid()
      modifies bookDao
      ensures bookDao.Valid()
      ensures c.Normal? <==> BookByTitle(old(bookDao.rows), book.title).Ok?
      ensures c.Abrupt? ==> c.exception == BookByTitle(old(bookDao.rows), book.title).error
      ensures c.Abrupt? ==> bookDao.rows == old(bookDao.rows)
      ensures c.Normal? ==> bookDao.rows == UpdateRows(old(bookDao.rows), book.Value())
      ensures bookDao.nextId == old(bookDao.nextId)
    {
      var found := GetBookByTitle(book.title);
      if found.Err? {
        return Abrupt(found.error);
      }
      bookDao.Update(book);
      return Normal;
    }

    /** `deleteBook`: deletes by title; an absent title is not an error. */
    method DeleteBook(title: Option<string>)
      requires bookDao.Valid()
      modifies bookDao
      ensures bookDao.Valid()
      ensures bookDao.rows == DeleteRows(old(bookDao.rows), title)
      ensures bookDao.nextId == old(bookDao.nextId)
    {
      bookDao.DeleteByTitle(title);
    }
  }
}
