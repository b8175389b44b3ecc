/** `BookWebController`: the decisions behind the library's HTML pages. The
    model of a page is its view name and the attributes it would carry; the
    redirect's flash message is a value. */
module LibraryWeb {
  import opened Platform
  import opened JavaStrings
  import opened LibraryBook
  import opened BookDao
  import opened LibraryService
  import opened FileStorage

  /** `BookViewDTO` as the views read it. */
  datatype BookViewDto = BookViewDto(
    title: Option<string>,
    author: Option<string>,
    year: int32,
    hasCover: bool,
    coverUrl: Option<string>)

  /** A flash attribute of a redirect: its name and message. */
  datatype Flash = Flash(name: string, message: string)

  /** Where `createBook` redirects to. */
  datatype Redirect = ToBookList | ToNewBookForm
  {
    /** The view name the controller returns for the redirect. */
    function ViewName(): string
    {
      match this
      case ToBookList => "redirect:/web/books"
      case ToNewBookForm => "redirect:/web/books/new"
    }
  }

  const CoverUrlPrefix := "/api/books/"
  const CoverUrlSuffix := "/cover"
  const TitleRequired := "Tytuł książki jest wymagany"
  const CoverErrorPrefix := "Błąd podczas zapisywania okładki: "
  const BookAdded := "Książka została dodana pomyślnie"

  /** The address of a book's cover: the title pasted in as it is. */
  function CoverUrl(title: Option<string>): (url: string)
    ensures StartsWith(url, CoverUrlPrefix) && EndsWith(url, CoverUrlSuffix)
    ensures |url| == |CoverUrlPrefix| + |NullableText(title)| + |CoverUrlSuffix|
  {
    CoverUrlPrefix + NullableText(title) + CoverUrlSuffix
  }

  /** The title a cover address names. */
  function TitleOfCoverUrl(url: string): string
    requires |url| >= |CoverUrlPrefix| + |CoverUrlSuffix|
  {
    url[|CoverUrlPrefix|..|url| - |CoverUrlSuffix|]
  }

  /** The title is not escaped: it is read back from the address exactly. */
  lemma CoverUrlNamesTitle(title: Option<string>)
    ensures TitleOfCoverUrl(CoverUrl(title)) == NullableText(title)
  {
    var t := NullableText(title);
    assert CoverUrl(title) == CoverUrlPrefix + t + CoverUrlSuffix;
    assert (CoverUrlPrefix + t + CoverUrlSuffix)[|CoverUrlPrefix|..|CoverUrlPrefix| + |t|] == t;
  }

  /** `convertToViewDTO`: title, author and year copied; a cover exactly
      when the book names a cover file, with its address. */
  function ConvertToViewDto(b: BookValue): (d: BookViewDto)
    ensures d.title == b.title && d.author == b.author && d.year == b.year
    ensures d.hasCover <==> b.coverImageFilename.Some?
    ensures d.coverUrl.Some? <==> d.hasCover
    ensures d.hasCover ==> d.coverUrl == Some(CoverUrl(b.title))
    ensures d.hasCover ==> TitleOfCoverUrl(d.coverUrl.value) == NullableText(b.title)
  {
    var hasCover := b.coverImageFilename.Some?;
    CoverUrlNamesTitle(b.title);
    BookViewDto(b.title, b.author, b.year, hasCover, if hasCover then Some(CoverUrl(b.title)) else None)
  }

  /** No title before position `k` is null or equal to `title`. */
  predicate NoTitleBefore(books: seq<BookValue>, title: string, k: int)
  {
    forall j :: 0 <= j < k && j < |books| ==> books[j].title.Some? && books[j].title.value != title
  }

  /** `stream().filter(b -> b.getTitle().equals(title)).findFirst()`: the
      first book with the title; a null title met before it throws. */
  function FirstWithTitle(books: seq<BookValue>, title: string): (r: Result<Option<BookValue>>)
    ensures r == Ok(None) <==> NoTitleBefore(books, title, |books|)
    ensures r.Ok? && r.value.Some? ==>
      exists k :: 0 <= k < |books| && NoTitleBefore(books, title, k) && books[k].title == Some(title) && r.value.value == books[k]
    ensures r.Err? ==> r.error == NullPointer
    ensures r.Err? ==>
      exists k :: 0 <= k < |books| && NoTitleBefore(books, title, k) && books[k].title.None?
  {
    if books == [] then Ok(None)
    else if books[0].title.None? then
      assert NoTitleBefore(books, title, 0);
      Err(NullPointer)
    else if books[0].title.value == title then
      assert NoTitleBefore(books, title, 0);
      Ok(Some(books[0]))
    else
      var r := FirstWithTitle(books[1..], title);
      assert forall k :: 0 <= k <= |books[1..]| ==> NoTitleBefore(books[1..], title, k) == NoTitleBefore(books, title, k + 1) by {
        forall k | 0 <= k <= |books[1..]| ensures NoTitleBefore(books[1..], title, k) == NoTitleBefore(books, title, k + 1) {
          assert forall j :: 0 <= j < |books[1..]| ==> books[1..][j] == books[j + 1];
        }
      }
      if r.Ok? && r.value.Some? then
        var k :| 0 <= k < |books[1..]| && NoTitleBefore(books[1..], title, k)
          && books[1..][k].title == Some(title) && r.value.value == books[1..][k];
        assert books[k + 1] == books[1..][k];
        r
      else if r.Err? then
        var k :| 0 <= k < |books[1..]| && NoTitleBefore(books[1..], title, k) && books[1..][k].title.None?;
        assert books[k + 1] == books[1..][k];
        r
      else r
  }

  /** The cover step of `createBook`: nothing without a non-empty file,
      otherwise the stored name or the storage service's rejection. */
  function CoverOutcome(coverFile: Option<MultipartFile>, title: string, allowedExtensions: seq<string>, uuid: string)
    : (r: Result<Option<string>>)
    requires IsUuidString(uuid)
    ensures coverFile.None? || coverFile.value.IsEmpty() ==> r == Ok(None)
    ensures r.Err? ==> r.error.IllegalArgument?
    ensures r.Ok? && r.value.Some? ==>
      coverFile.Some? && StoreDecision(coverFile.value, Some(title), allowedExtensions, uuid) == Ok(r.value.value)
    ensures r.Err? ==>
      coverFile.Some? && StoreDecision(coverFile.value, Some(title), allowedExtensions, uuid) == Err(r.error)
  {
    if coverFile.None? || coverFile.value.IsEmpty() then Ok(None)
    else
      match StoreDecision(coverFile.value, Some(title), allowedExtensions, uuid)
      case Ok(name) => Ok(Some(name))
      case Err(e) => Err(e)
  }

  class BookWebController {
    const bookService: BookService
    const fileStorageService: FileStorageService

    constructor (bookService: BookService, fileStorageService: FileStorageService)
      ensures this.bookService == bookService && this.fileStorageService == fileStorageService
    {
      this.bookService := bookService;
      this.fileStorageService := fileStorageService;
    }

    /** `listBooks`: one view object per book, in the books' order. */
    method ListBooks() returns (view: string, books: seq<BookViewDto>)
      ensures view == "books/list"
      ensures |books| == |bookService.bookDao.rows|
      ensures forall k :: 0 <= k < |books| ==> books[k] == ConvertToViewDto(MapRow(bookService.bookDao.rows[k]))
    {
      var all := bookService.GetAllBooks();
      var dtos: seq<BookViewDto> := [];
      for i := 0 to |all|
        invariant |dtos| == i
        invariant forall k :: 0 <= k < i ==> dtos[k] == ConvertToViewDto(all[k])
      {
        dtos := dtos + [ConvertToViewDto(all[i])];
      }
      return "books/list", dtos;
    }

    /** `showCreateForm`: an empty form. */
    method ShowCreateForm() returns (view: string, form: BookViewDto)
      ensures view == "books/form"
      ensures form == BookViewDto(Some(""), Some(""), 0, false, None)
    {
      return "books/form", BookViewDto(Some(""), Some(""), 0, false, None);
    }

    /** `createBook`: a blank title or a rejected cover sends the user back
        to the form and adds nothing; otherwise the cover is stored and the
        book added once. */
    method CreateBook(title: Option<string>, author: Option<string>, year: int32,
                      coverFile: Option<MultipartFile>, uuid: string)
      returns (redirect: Redirect, flash: Flash)
      requires IsUuidString(uuid)
      requires bookService.bookDao.Valid()
      modifies bookService.bookDao, fileStorageService
      ensures bookService.bookDao.Valid()
      ensures NullOrBlank(title) ==> redirect == ToNewBookForm && flash == Flash("error", TitleRequired)
      ensures !NullOrBlank(title) && CoverOutcome(coverFile, title.value, fileStorageService.allowedExtensions, uuid).Err? ==>
        redirect == ToNewBookForm
        && flash.name == "error"
        && flash.message == CoverErrorPrefix
             + CoverOutcome(coverFile, title.value, fileStorageService.allowedExtensions, uuid).error.message
      ensures redirect == ToBookList <==>
        !NullOrBlank(title) && CoverOutcome(coverFile, title.value, fileStorageService.allowedExtensions, uuid).Ok?
      ensures redirect != ToBookList ==>
        bookService.bookDao.rows == old(bookService.bookDao.rows)
        && fileStorageService.files == old(fileStorageService.files)
      ensures redirect == ToBookList ==>
        flash == Flash("success", BookAdded)
        && bookService.bookDao.rows == old(bookService.bookDao.rows)
           + [InsertedRow(BookValue(None, title, author, year, CoverOutcome(coverFile, title.value, fileStorageService.allowedExtensions, uuid).value),
                          old(bookService.bookDao.nextId))]
      ensures redirect == ToBookList ==>
        var cover := CoverOutcome(coverFile, title.value, fileStorageService.allowedExtensions, uuid).value;
        fileStorageService.files
          == if cover.None? then old(fileStorageService.files)
             else old(fileStorageService.files)[fileStorageService.LoadFile(cover.value) := coverFile.value.content]
    {
      if NullOrBlank(title) {
        return ToNewBookForm, Flash("error", TitleRequired);
      }
      var book := new Book(title, author, year);
      var cover := StoreCover(coverFile, title.value, uuid);
      if cover.Err? {
        return ToNewBookForm, Flash("error", CoverErrorPrefix + cover.error.message);
      }
      if cover.value.Some? {
        book.SetCoverImageFilename(cover.value);
      }
      bookService.AddBook(book);
      return ToBookList, Flash("success", BookAdded);
    }

    /** The cover step of `createBook`: a non-empty file is handed to the
        storage service, which writes it only when it accepts it. */
    method StoreCover(coverFile: Option<MultipartFile>, title: string, uuid: string)
      returns (cover: Result<Option<string>>)
      requires IsUuidString(uuid)
      modifies fileStorageService
      ensures cover == CoverOutcome(coverFile, title, fileStorageService.allowedExtensions, uuid)
      ensures fileStorageService.files ==
        if cover.Ok? && cover.value.Some? then
          old(fileStorageService.files)[fileStorageService.LoadFile(cover.value.value) := coverFile.value.content]
        else old(fileStorageService.files)
    {
      if coverFile.None? || coverFile.value.IsEmpty() {
        return Ok(None);
      }
      var stored := fileStorageService.StoreFile(coverFile.value, Some(title), uuid);
      if stored.Err? {
        return Err(stored.error);
      }
      return Ok(Some(stored.value));
    }

    /** `showBookDetails`: the first book with the title, or back to the
        list when there is none; a null title met first throws. */
    method ShowBookDetails(title: string) returns (view: Result<string>, details: Option<BookViewDto>)
      ensures var found := FirstWithTitle(bookService.GetAllBooks(), title);
        (found.Err? ==> view == Err(found.error) && details.None?)
        && (found == Ok(None) ==> view == Ok("redirect:/web/books") && details.None?)
        && (found.Ok? && found.value.Some? ==>
              view == Ok("books/details") && details == Some(ConvertToViewDto(found.value.value)))
    {
      var books := bookService.GetAllBooks();
      var found := FirstWithTitle(books, title);
      if found.Err? {
        return Err(found.error), None;
      }
      if found.value.None? {
        return Ok("redirect:/web/books"), None;
      }
      return Ok("books/details"), Some(ConvertToViewDto(found.value.value));
    }
  }
}
