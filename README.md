# AplikacjePrzemyslowe: the library and the product catalogue, modelled in Dafny

The repository is a teaching application with two variants.

- The **library** is a JDBC application. Its `Book` entity is stored in a `books` table by
  `JdbcBookDAO` and used by `BookService`. `CsvImportService` reads books from a CSV upload.
  `FileStorageService` stores cover images under generated names, and `BookWebController`
  turns the service's answers into pages.
- The **product catalogue** is a JPA application with two parts:
  - `ProductModel` is an in-memory list of products with its own id counter.
  - `ProductService` and `CategoryService` validate products and categories and store them
    through Spring Data repositories. `FileService` checks and stores product images.

This project models that sequential core and proves what it promises.

**How the Java world is represented**
- A Java `null` is `Option.None`, and a thrown exception is an `Exception` value. `Result` is
  a value or an exception; `Completion` is normal or abrupt termination (`platform.dfy`).
- An object whose setters change it in place is a class with `modifies` frames: `Book`,
  `Product`, `Review`, the DAO, the services and the stores. `Value()` gives a snapshot of an
  entity as a datatype.
- The `books` table is a sequence of rows plus the next identity value. Each SQL statement is
  a function on the rows, and the DAO's methods apply it.
- The catalogue's repositories are maps from the generated id to the entity.
- The file system is a map from a path to its bytes. A random UUID is a parameter.
  `Path.resolve`, together with the parse of a name into a `Path` (doubled `/` collapsed, a trailing `/` dropped), is written out in `paths.dfy`, without `normalize`.
- The `String` and `Integer` methods the code relies on are written out in `java_strings.dfy`:
  - `split` drops trailing empty fields;
  - `trim` removes characters up to U+0020;
  - `parseInt` is limited to the 32-bit range;
  - `lastIndexOf`, `toLowerCase`, `String.join` and `Integer.toString` are also modelled.

## Model

Source paths are relative to the repository root.

| member | source | states |
|---|---|---|
| LibraryBook.Book.Empty | src/main/java/com/example/library/model/Book.java:11 | the no-argument constructor leaves id, title, author and cover null and the year 0 |
| LibraryBook.Book.constructor | src/main/java/com/example/library/model/Book.java:14-18 | sets exactly title, author and year; id and cover stay null |
| LibraryBook.Book.SetId | src/main/java/com/example/library/model/Book.java:25-27 | changes the id and no other field |
| LibraryBook.Book.SetTitle | src/main/java/com/example/library/model/Book.java:33-35 | changes the title and no other field |
| LibraryBook.Book.SetAuthor | src/main/java/com/example/library/model/Book.java:41-43 | changes the author and no other field |
| LibraryBook.Book.SetYear | src/main/java/com/example/library/model/Book.java:49-51 | changes the year and no other field |
| LibraryBook.Book.SetCoverImageFilename | src/main/java/com/example/library/model/Book.java:57-59 | changes the cover file name and no other field |
| LibraryBook.RenderShowsFields | src/main/java/com/example/library/model/Book.java:61-70 | `toString` starts with `Book{id=<id>, title='<t>'` and with `Book{id=<id>, title='<t>', author='<a>', year=`, ends with `, coverImageFilename='<c>'}` (null printed as `null`), and its length is exactly those parts plus the year's decimal text, which fills the gap between them; `JavaStrings.ParseIntegerText` reads that text back to the year |
| LibraryBook.Render | src/main/java/com/example/library/model/Book.java:61-70 | the text opens with `Book{id=` and closes with `'}` |
| LibraryBook.Book.ToString | src/main/java/com/example/library/model/Book.java:61-70 | the book's text starts with its id, title and author labelled and quoted up to `year=`, and ends with its labelled cover file name |
| LibraryBook.ValuesAppend | src/main/java/com/example/library/service/CsvImportService.java:46 | the snapshots of a list with a book appended are the old snapshots plus that book's |
| JavaStrings.AfterLast | src/main/java/com/example/library/service/FileStorageService.java:76-82 | the text after the last occurrence of a character: it contains no such character and is a suffix of the input |
| JavaStrings.AfterLastOfAppended | src/main/java/com/example/library/service/FileStorageService.java:76-82 | after appending a character and a text free of it, the text after the last occurrence is exactly the appended text |
| JavaStrings.LastIndexOf | src/main/java/com/example/library/service/FileStorageService.java:76-82 | `lastIndexOf`: -1 or a position holding the character, with no occurrence after it |
| JavaStrings.Trim | src/main/java/com/example/library/service/CsvImportService.java:41-45 | `trim` returns a slice of its input that neither starts nor ends with a character up to U+0020, and only such characters were removed |
| JavaStrings.TrimIdempotent | src/main/java/com/example/library/service/CsvImportService.java:41-42 | trimming twice is trimming once |
| JavaStrings.BlankIffAllSpace | src/main/java/com/example/library/controller/BookWebController.java:55 | `trim().isEmpty()` holds exactly when every character is up to U+0020 |
| JavaStrings.ToLower | src/main/java/com/example/library/service/FileStorageService.java:46 | lower-casing keeps the length and lowers each character on its own, ASCII capitals only |
| JavaStrings.LowerAlphanumeric | src/main/java/com/example/library/service/FileStorageService.java:46 | a character is an ASCII letter or digit exactly when its lower-cased form is |
| JavaStrings.ToLowerIdempotent | src/main/java/com/example/library/service/BookService.java:33 | lower-casing twice is lower-casing once |
| JavaStrings.EqualsIgnoreCase | src/main/java/com/example/library/service/BookService.java:33 | `equalsIgnoreCase` holds exactly when the texts have the same length and agree character by character once each is lower-cased |
| JavaStrings.JoinPieces | src/main/java/com/example/library/service/CsvImportService.java:36 | joining the separator-free pieces of a text with the separator gives the text back |
| JavaStrings.PiecesOfJoined | src/main/java/com/example/library/service/CsvImportService.java:36 | the pieces of two texts joined by the separator are the first text's pieces followed by the second's |
| JavaStrings.Split | src/main/java/com/example/library/service/CsvImportService.java:36 | `split` gives the separator-free pieces with trailing empty pieces dropped; a text without the separator is its own single piece |
| JavaStrings.SplitKeepsLeadingFields | src/main/java/com/example/library/service/CsvImportService.java:36-42 | appending a separator and more text keeps the fields already present |
| JavaStrings.ParseInt | src/main/java/com/example/library/service/CsvImportService.java:45 | `parseInt` accepts an optional sign and ASCII digits whose value fits in 32 bits, and nothing else |
| JavaStrings.ParseIntegerText | src/main/java/com/example/library/service/CsvImportService.java:45 | the decimal text of any `int` parses back to that `int` |
| JavaStrings.IntegerText | src/main/java/com/example/spring_rest_controller_2/exception/ResourceNotFoundException.java:17-20 | `String.valueOf` of an integer: its decimal digits, after a `-` exactly when it is negative |
| CsvImport.ParseLineAccepts | src/main/java/com/example/library/service/CsvImportService.java:36-49 | a line yields a book exactly when its split has at least three fields and the trimmed third field parses; such a line contains a comma |
| CsvImport.ParseLine | src/main/java/com/example/library/service/CsvImportService.java:36-46 | an accepted line has a comma and yields a book with a title and an author and no id and no cover |
| CsvImport.ParseLineShape | src/main/java/com/example/library/service/CsvImportService.java:41-46 | an accepted line's book has null id and cover, the trimmed first two fields as title and author, and the parsed third field as year |
| CsvImport.ParseLines | src/main/java/com/example/library/service/CsvImportService.java:30-50 | the data lines yield at most one book each |
| CsvImport.ImportedBooks | src/main/java/com/example/library/service/CsvImportService.java:16-56 | fails with `IllegalArgumentException` exactly when the name is null or does not end in `.csv`; otherwise yields fewer books than lines |
| CsvImport.ImportBooksFromCsv | src/main/java/com/example/library/service/CsvImportService.java:16-57 | the reading loop with its first-line flag returns fresh `Book` objects whose snapshots are `ImportedBooks`, or its error |
| CsvImport.AppendNew | src/main/java/com/example/library/service/CsvImportService.java:46 | `books.add(new Book(...))` appends one fresh book with the parsed fields and keeps the earlier ones |
| CsvImport.ParseFormatLine | src/main/java/com/example/library/service/CsvImportService.java:36-46 | a line written as `title,author,year` from comma-free, trimmed fields reads back as that book |
| CsvImport.ParseLineIgnoresExtraFields | src/main/java/com/example/library/service/CsvImportService.java:36-46 | fields after the third change nothing |
| CsvImport.ParseLinesAppend | src/main/java/com/example/library/service/CsvImportService.java:30-50 | the books keep the order of their lines |
| CsvImport.FirstLineIgnored | src/main/java/com/example/library/service/CsvImportService.java:28-34 | the first line never yields a book, whatever it holds |
| CsvImport.TrailingEmptyFieldSkipped | src/main/java/com/example/library/service/CsvImportService.java:36-39 | `A,B,` is skipped because its trailing empty field is dropped |
| CsvImport.EmptyAuthorKept | src/main/java/com/example/library/service/CsvImportService.java:36-46 | `A,,2020` yields a book with an empty author |
| CsvImport.UpperCaseExtensionRejected | src/main/java/com/example/library/service/CsvImportService.java:17-20 | the name check is case-sensitive: `books.CSV` is rejected |
| FileStorage.FileExtension | src/main/java/com/example/library/service/FileStorageService.java:76-82 | the text after the last dot, so it has no dot and the name ends in it; `""` for a name without a dot |
| FileStorage.Sanitize | src/main/java/com/example/library/service/FileStorageService.java:85 | keeps the length, keeps each ASCII letter and digit in place, and replaces every other character with `_` |
| FileStorage.SanitizedIsSafe | src/main/java/com/example/library/service/FileStorageService.java:85 | a sanitised title holds only letters, digits and `_`, so no dot and no slash |
| FileStorage.SanitizeIdempotent | src/main/java/com/example/library/service/FileStorageService.java:85 | sanitising twice is sanitising once |
| FileStorage.GenerateUniqueFilename | src/main/java/com/example/library/service/FileStorageService.java:84-88 | the sanitised title, `_`, eight lower-case hex digits of the UUID, a dot and the extension |
| FileStorage.GeneratedExtension | src/main/java/com/example/library/service/FileStorageService.java:76-88 | the generated name's extension is the one it was given, in its original case |
| FileStorage.GeneratedNameIsPlain | src/main/java/com/example/library/service/FileStorageService.java:84-88 | with an alphanumeric extension the generated name has one dot, no slash and no `..` |
| FileStorage.StoreDecision | src/main/java/com/example/library/service/FileStorageService.java:35-51 | checks in order: an empty file, then a null name, then a lower-cased extension outside the allowed list; each is an `IllegalArgumentException`; an accepted file gets a generated name that keeps its extension |
| FileStorage.UntrimmedConfiguration | src/main/java/com/example/library/service/FileStorageService.java:26 | the allowed list is the configuration split on commas with nothing trimmed: `jpg, png` allows ` png` but not `png` |
| Paths.CollapseSlashes | src/main/java/com/example/library/service/FileStorageService.java:25 | the parsed name has no `/` directly after another, is empty exactly when the input is, and keeps its first and last character |
| Paths.CollapseKeepsNonSlash | src/main/java/com/example/library/service/FileStorageService.java:52 | collapsing removes only slashes: the other characters stay, in order |
| Paths.CollapseKeepsSingleSlashes | src/main/java/com/example/library/service/FileStorageService.java:52 | a name without doubled slashes is left as it is |
| Paths.PathString | src/main/java/com/example/library/service/FileStorageService.java:25 | parsing a name into a `Path` is empty exactly when the name is, and keeps its first character, so an absolute name stays absolute |
| Paths.PathStringIsParsed | src/main/java/com/example/library/service/FileStorageService.java:52 | a parsed name has no doubled `/` and no trailing `/` unless it is the root `/` |
| Paths.PathStringKeepsNonSlash | src/main/java/com/example/library/service/FileStorageService.java:52 | parsing removes only slashes |
| Paths.PathStringKeepsParsed | src/main/java/com/example/library/service/FileStorageService.java:52 | a name already in parsed form is kept as it is |
| Paths.PathStringIdempotent | src/main/java/com/example/library/service/FileStorageService.java:52 | parsing twice is parsing once |
| Paths.Resolve | src/main/java/com/example/library/service/FileStorageService.java:52 | `Path.resolve` on the parsed root and name: an absolute name gives its own parsed form, a relative one a path starting with the parsed root |
| Paths.ResolveIsPathString | src/main/java/com/example/library/service/FileStorageService.java:64 | a resolved path is again in parsed form |
| Paths.ResolveEndsWithName | src/main/java/com/example/spring_rest_controller_2/service/FileService.java:72 | every resolved path ends with the parsed name |
| Paths.ResolveInjective | src/main/java/com/example/spring_rest_controller_2/service/FileService.java:58 | under one root, two relative names resolve to the same path exactly when they parse to the same name |
| Paths.TrailingSlashIgnored | src/main/java/com/example/spring_rest_controller_2/service/FileService.java:87 | a non-empty name with a `/` appended resolves where the name does (`a/` where `a` does) |
| Paths.DoubledSlashIgnored | src/main/java/com/example/library/service/FileStorageService.java:69 | `a//b` resolves where `a/b` does, and `//x` where `/x` does |
| FileStorage.FileStorageService.constructor | src/main/java/com/example/library/service/FileStorageService.java:22-33 | the allowed extensions are the configuration split on commas |
| FileStorage.FileStorageService.StoreFile | src/main/java/com/example/library/service/FileStorageService.java:35-61 | returns `StoreDecision` and only the name; a rejected file writes nothing, and an accepted one is written under its resolved path |
| FileStorage.FileStorageService.LoadFile | src/main/java/com/example/library/service/FileStorageService.java:63-65 | the name, parsed, resolved against the upload directory and not normalised: an absolute name gives its parsed form, a relative one starts with the parsed directory; either way the path ends with the parsed name |
| FileStorage.FileStorageService.DeleteFile | src/main/java/com/example/library/service/FileStorageService.java:67-74 | removes that path if present, and afterwards it is absent |
| BookDao.InsertedRow | src/main/java/com/example/library/dao/JdbcBookDAO.java:27-45 | the inserted row carries the generated id, and the row mapper reads it back as the book with that id |
| BookDao.FilterKeepsIdsIncreasing | src/main/java/com/example/library/dao/JdbcBookDAO.java:84-91 | deleting rows keeps the ids strictly increasing |
| BookDao.TitleQuery | src/main/java/com/example/library/dao/JdbcBookDAO.java:54-66 | empty exactly when no row has the title (no NULL matches); the matching row's book when exactly one does; a result-size error when two or more do |
| BookDao.UpdateRows | src/main/java/com/example/library/dao/JdbcBookDAO.java:69-81 | the row with the book's id gets its author, year and cover; ids, titles and every other row are unchanged; nothing changes when no id matches |
| BookDao.DeleteRows | src/main/java/com/example/library/dao/JdbcBookDAO.java:84-91 | removes exactly the rows with the title and keeps every other row |
| BookDao.DeleteRowsEffect | src/main/java/com/example/library/dao/JdbcBookDAO.java:84-91 | afterwards no row has the title; deleting again changes nothing; an absent title changes nothing |
| BookDao.IdsQuery | src/main/java/com/example/library/dao/JdbcBookDAO.java:94-104 | empty for an empty list; otherwise exactly the books of the rows whose id is in the list: each such row gives a book, each book comes from such a row, there are no more books than rows, and over a table with increasing ids no two books share an id, so each listed row comes back once |
| BookDao.SaveThenFindByTitle | src/main/java/com/example/library/dao/JdbcBookDAO.java:27-66 | after saving a book with a new title, `findByTitle` returns it with its generated id and every other field |
| BookDao.JdbcBookDao.constructor | src/main/java/com/example/library/dao/JdbcBookDAO.java:22-24 | an empty table whose identity starts at 1 |
| BookDao.JdbcBookDao.Save | src/main/java/com/example/library/dao/JdbcBookDAO.java:27-45 | appends the inserted row and writes the positive generated id back into the same `Book`, changing nothing else in it |
| BookDao.JdbcBookDao.FindAll | src/main/java/com/example/library/dao/JdbcBookDAO.java:48-51 | one mapped book per row, in table order |
| BookDao.JdbcBookDao.FindByTitle | src/main/java/com/example/library/dao/JdbcBookDAO.java:54-66 | empty exactly when no row has the title; the book of the only matching row; a result-size error when two rows match |
| BookDao.JdbcBookDao.Update | src/main/java/com/example/library/dao/JdbcBookDAO.java:69-81 | the table becomes `UpdateRows` of the old table |
| BookDao.JdbcBookDao.DeleteByTitle | src/main/java/com/example/library/dao/JdbcBookDAO.java:84-91 | the table becomes `DeleteRows` of the old table |
| BookDao.JdbcBookDao.FindByIds | src/main/java/com/example/library/dao/JdbcBookDAO.java:94-104 | empty for an empty list; every row with a listed id gives a book in the result, every book in it comes from such a row, there are no more books than rows, and on a valid table no two books share an id, so each listed row comes back once |
| LibraryService.NotFoundMessage | src/main/java/com/example/library/service/BookService.java:45 | the message starts with `Książka o tytule: ` and contains `nie została znaleziona` |
| LibraryService.BooksByAuthor | src/main/java/com/example/library/service/BookService.java:30-35 | fails with a `NullPointerException` exactly when some book has a null author; otherwise yields exactly the books whose author equals the argument ignoring case |
| LibraryService.BooksByAuthorIgnoresCase | src/main/java/com/example/library/service/BookService.java:33 | asking for an author in any case gives the same books |
| LibraryService.BooksByAuthorKeepsOrder | src/main/java/com/example/library/service/BookService.java:31-34 | filtering a concatenation filters each part in turn, so the books keep their order |
| LibraryService.BookByTitle | src/main/java/com/example/library/service/BookService.java:42-46 | the DAO's match; when there is none, an `IllegalArgumentException` with the not-found message |
| LibraryService.BookService.constructor | src/main/java/com/example/library/service/BookService.java:15-17 | the service over the given DAO |
| LibraryService.BookService.AddBook | src/main/java/com/example/library/service/BookService.java:19-23 | saves the same book once, with no check of its own |
| LibraryService.BookService.GetAllBooks | src/main/java/com/example/library/service/BookService.java:26-28 | one book per row, in table order |
| LibraryService.BookService.FindBooksByAuthor | src/main/java/com/example/library/service/BookService.java:30-35 | throws exactly when a stored book has a null author; otherwise only stored books whose author equals the argument ignoring case |
| LibraryService.BookService.GetTotalBooks | src/main/java/com/example/library/service/BookService.java:37-40 | the number of rows, which is the length of `getAllBooks` |
| LibraryService.BookService.GetBookByTitle | src/main/java/com/example/library/service/BookService.java:42-46 | a stored book with that title; the not-found `IllegalArgumentException` exactly when no row has the title |
| LibraryService.BookService.UpdateBook | src/main/java/com/example/library/service/BookService.java:48-54 | fails with `BookByTitle`'s error and leaves the table unchanged when no book has the title; otherwise applies the id-keyed update |
| LibraryService.BookService.DeleteBook | src/main/java/com/example/library/service/BookService.java:56-59 | delegates to `deleteByTitle`; an absent title is not an error |
| LibraryWeb.CoverUrl | src/main/java/com/example/library/controller/BookWebController.java:98 | `/api/books/` + the title + `/cover`, with its length |
| LibraryWeb.CoverUrlNamesTitle | src/main/java/com/example/library/controller/BookWebController.java:98 | the title is not escaped, so it is read back from the address exactly |
| LibraryWeb.ConvertToViewDto | src/main/java/com/example/library/controller/BookWebController.java:94-107 | copies title, author and year; `hasCover` exactly when the cover name is non-null; a cover URL exactly then, naming the title |
| LibraryWeb.FirstWithTitle | src/main/java/com/example/library/controller/BookWebController.java:80-84 | the first book whose title equals the path value; none exactly when no title matches; a `NullPointerException` when a null title comes first |
| LibraryWeb.CoverOutcome | src/main/java/com/example/library/controller/BookWebController.java:62-71 | no cover without a non-empty file; otherwise the storage service's decision |
| LibraryWeb.BookWebController.constructor | src/main/java/com/example/library/controller/BookWebController.java:27-30 | the controller over the given services |
| LibraryWeb.BookWebController.ListBooks | src/main/java/com/example/library/controller/BookWebController.java:32-41 | view `books/list` with one view object per book in table order, none for an empty table |
| LibraryWeb.BookWebController.ShowCreateForm | src/main/java/com/example/library/controller/BookWebController.java:43-47 | view `books/form` with an empty title and author, year 0 and no cover |
| LibraryWeb.BookWebController.CreateBook | src/main/java/com/example/library/controller/BookWebController.java:49-76 | a null or blank title, or a rejected cover, redirects to the form with the error and adds nothing; otherwise the book (with its stored cover) is added once and the redirect goes to the list |
| LibraryWeb.BookWebController.StoreCover | src/main/java/com/example/library/controller/BookWebController.java:62-71 | the cover decision, and the file is written exactly when a cover name is returned |
| LibraryWeb.BookWebController.ShowBookDetails | src/main/java/com/example/library/controller/BookWebController.java:78-92 | the details view of the first book with the exact title, or the redirect to the list when none has it |
| ProductEntities.Product.constructor | src/main/java/com/example/spring_rest_controller_2/model/entity/Product.java:15-34 | every field null and an empty review list |
| ProductEntities.Product.SetId | src/main/java/com/example/spring_rest_controller_2/model/entity/Product.java:18 | changes the id and no other field |
| ProductEntities.Product.SetName | src/main/java/com/example/spring_rest_controller_2/model/entity/Product.java:21 | changes the name and no other field |
| ProductEntities.Product.SetPrice | src/main/java/com/example/spring_rest_controller_2/model/entity/Product.java:24 | changes the price and no other field |
| ProductEntities.Product.SetDescription | src/main/java/com/example/spring_rest_controller_2/model/entity/Product.java:26 | changes the description and no other field |
| ProductEntities.Product.SetCategory | src/main/java/com/example/spring_rest_controller_2/model/entity/Product.java:31 | changes the category and no other field |
| ProductEntities.Product.SetDetails | src/main/java/com/example/spring_rest_controller_2/model/ProductModel.java:59-61 | sets name, price and description and keeps id, image, category and reviews |
| ProductEntities.Product.AddToReviews | src/main/java/com/example/spring_rest_controller_2/service/ProductService.java:95 | appends the review and keeps the earlier ones and every other field |
| ProductEntities.Review.constructor | src/main/java/com/example/spring_rest_controller_2/model/entity/Review.java:11-18 | a review with the comment, no id and no product |
| ProductEntities.Review.SetProduct | src/main/java/com/example/spring_rest_controller_2/model/entity/Review.java:18 | changes the product and keeps the comment |
| ProductStore.FirstWithId | src/main/java/com/example/spring_rest_controller_2/model/ProductModel.java:39-43 | the position of the first product with the id, no earlier one has it; the length when none does |
| ProductStore.UpdateFirst | src/main/java/com/example/spring_rest_controller_2/model/ProductModel.java:57-63 | keeps the length and every id; only the first product with the updated id can change |
| ProductStore.UpdateFirstEffect | src/main/java/com/example/spring_rest_controller_2/model/ProductModel.java:57-63 | the first product with the id takes the name, price and description; every id and every other product is kept; nothing changes without a match |
| ProductStore.UpdateFirstIdempotent | src/main/java/com/example/spring_rest_controller_2/model/ProductModel.java:57-63 | applying the same update twice is applying it once |
| ProductStore.WithoutId | src/main/java/com/example/spring_rest_controller_2/model/ProductModel.java:65-67 | no longer than the list, and no product left has the id |
| ProductStore.WithoutIdMembers | src/main/java/com/example/spring_rest_controller_2/model/ProductModel.java:65-67 | `removeIf` keeps exactly the products with another id, in order |
| ProductStore.WithoutIdShrinks | src/main/java/com/example/spring_rest_controller_2/model/ProductModel.java:65-67 | the list shrinks exactly when some product had the id |
| ProductStore.IdsIncreasingWithoutId | src/main/java/com/example/spring_rest_controller_2/model/ProductModel.java:65-67 | removing products keeps the ids increasing |
| ProductStore.WithoutIdKeepsInvariant | src/main/java/com/example/spring_rest_controller_2/model/ProductModel.java:65-67 | delete keeps every id present, distinct and below `nextId` |
| ProductStore.AppendKeepsInvariant | src/main/java/com/example/spring_rest_controller_2/model/ProductModel.java:45-50 | appending a product with id `nextId` and incrementing `nextId` keeps the invariant |
| ProductStore.NewSample | src/main/java/com/example/spring_rest_controller_2/model/ProductModel.java:20-31 | a fresh product with the given id, name, price and description |
| ProductStore.ProductModel.constructor | src/main/java/com/example/spring_rest_controller_2/model/ProductModel.java:14-15 | an empty list and `nextId` 1 |
| ProductStore.ProductModel.Init | src/main/java/com/example/spring_rest_controller_2/model/ProductModel.java:17-33 | appends the two sample products under the next two ids and advances `nextId` by two |
| ProductStore.ProductModel.FindAll | src/main/java/com/example/spring_rest_controller_2/model/ProductModel.java:35-37 | a new list holding the stored products in insertion order |
| ProductStore.ProductModel.FindById | src/main/java/com/example/spring_rest_controller_2/model/ProductModel.java:39-43 | present exactly when some product has the id, and then that product |
| ProductStore.ProductModel.Exists | src/main/java/com/example/spring_rest_controller_2/model/ProductModel.java:69-71 | holds exactly when `findById` is present |
| ProductStore.ProductModel.Save | src/main/java/com/example/spring_rest_controller_2/model/ProductModel.java:45-55 | returns its argument; a null id gets `nextId`, which is incremented, and the product is appended; otherwise the update is applied and nothing is added |
| ProductStore.ProductModel.Append | src/main/java/com/example/spring_rest_controller_2/model/ProductModel.java:48-49 | appends the product and increments `nextId` |
| ProductStore.ProductModel.UpdateExisting | src/main/java/com/example/spring_rest_controller_2/model/ProductModel.java:57-63 | the stored products' snapshots become `UpdateFirst` of the old ones; the argument is unchanged |
| ProductStore.ProductModel.SetDetailsAt | src/main/java/com/example/spring_rest_controller_2/model/ProductModel.java:58-62 | the product at the position takes the details; no other product changes |
| ProductStore.ProductModel.Delete | src/main/java/com/example/spring_rest_controller_2/model/ProductModel.java:65-67 | removes every product with the id and returns true exactly when one existed |
| ProductStore.ProductModel.Kept | src/main/java/com/example/spring_rest_controller_2/model/ProductModel.java:66 | the products `removeIf` keeps |
| ProductStore.Started | src/main/java/com/example/spring_rest_controller_2/model/ProductModel.java:14-33 | after construction and `init` the ids are 1 and 2 and `nextId` is 3 |
| ProductFiles.GetFileExtension | src/main/java/com/example/spring_rest_controller_2/service/FileService.java:119-124 | the text after the last dot; `""` for a null or dot-less name |
| ProductFiles.IsImageExtension | src/main/java/com/example/spring_rest_controller_2/service/FileService.java:126-129 | an accepted extension has three or four characters |
| ProductFiles.ImageExtensionIsLetters | src/main/java/com/example/spring_rest_controller_2/service/FileService.java:126-129 | an accepted extension is three or four ASCII letters |
| ProductFiles.ImageExtensionIgnoresCase | src/main/java/com/example/spring_rest_controller_2/service/FileService.java:126-129 | the verdict ignores case, and `""` is never accepted |
| ProductFiles.ValidateFile | src/main/java/com/example/spring_rest_controller_2/service/FileService.java:95-117 | the first failing check throws, in order: null or empty, `..` in the name, more than 5 MiB, not an image extension; passes exactly when all pass |
| ProductFiles.SizeLimitBoundary | src/main/java/com/example/spring_rest_controller_2/service/FileService.java:108 | 5242880 bytes pass and one more byte fails the size check |
| ProductFiles.DotlessNameRejected | src/main/java/com/example/spring_rest_controller_2/service/FileService.java:113-124 | an otherwise valid file with a dot-less name is refused as not an image |
| ProductFiles.SavedName | src/main/java/com/example/spring_rest_controller_2/service/FileService.java:48-64 | the validation error, or the UUID, a dot and the original extension |
| ProductFiles.SavedNameShape | src/main/java/com/example/spring_rest_controller_2/service/FileService.java:53-55 | the stored name keeps the extension in its case, drops the base name, and has no slash and no `..` |
| ProductFiles.GetFileUrl | src/main/java/com/example/spring_rest_controller_2/service/FileService.java:132-137 | null exactly for a null or empty name, otherwise `/products/image/` + the name |
| ProductFiles.FileUrlNamesFile | src/main/java/com/example/spring_rest_controller_2/service/FileService.java:132-137 | the name is read back from the address exactly |
| ProductFiles.FileService.constructor | src/main/java/com/example/spring_rest_controller_2/service/FileService.java:31-35 | the storage location and its existing files |
| ProductFiles.FileService.SaveFile | src/main/java/com/example/spring_rest_controller_2/service/FileService.java:48-68 | returns `SavedName`; a refused file writes nothing; an accepted one is written and can then be loaded |
| ProductFiles.FileService.LoadFileAsResource | src/main/java/com/example/spring_rest_controller_2/service/FileService.java:70-83 | the file's path when it exists, otherwise a `StorageException` naming the file |
| ProductFiles.FileService.DeleteFile | src/main/java/com/example/spring_rest_controller_2/service/FileService.java:85-93 | removes the file if present; afterwards loading it fails |
| CatalogExceptions.NotFoundMessage | src/main/java/com/example/spring_rest_controller_2/exception/ResourceNotFoundException.java:17-20 | `<resource> o <field>: '<value>' nie został znaleziony` |
| CatalogExceptions.NotFoundMessageNamesValue | src/main/java/com/example/spring_rest_controller_2/exception/ResourceNotFoundException.java:17-20 | the value is read back from the message, so two messages differ exactly when their values do |
| CatalogRepositories.MapValuesBound | src/main/java/com/example/spring_rest_controller_2/repository/ProductRepository.java:15 | a table has no more distinct entities than rows, so `findAll` never exceeds `count` |
| CatalogRepositories.ProductRepository.constructor | src/main/java/com/example/spring_rest_controller_2/repository/ProductRepository.java:14 | an empty table whose identity starts at 1 |
| CatalogRepositories.ProductRepository.Count | src/main/java/com/example/spring_rest_controller_2/repository/ProductRepository.java:14 | zero exactly when no product is stored |
| CatalogRepositories.ProductRepository.Save | src/main/java/com/example/spring_rest_controller_2/repository/ProductRepository.java:14 | a new product gets the next id written into it and is inserted; one with a stored id replaces that row; it is then found under its id |
| CatalogRepositories.ProductRepository.FindById | src/main/java/com/example/spring_rest_controller_2/repository/ProductRepository.java:14 | present exactly when a row has the id, and then that row |
| CatalogRepositories.ProductRepository.Delete | src/main/java/com/example/spring_rest_controller_2/repository/ProductRepository.java:14 | removes the row with the entity's id |
| CatalogRepositories.ProductRepository.FindAll | src/main/java/com/example/spring_rest_controller_2/repository/ProductRepository.java:15 | exactly the products `findById` finds, at most `count` of them |
| CatalogRepositories.CategoryRepository.constructor | src/main/java/com/example/spring_rest_controller_2/repository/CategoryRepository.java:11 | an empty table whose identity starts at 1 |
| CatalogRepositories.CategoryRepository.Save | src/main/java/com/example/spring_rest_controller_2/repository/CategoryRepository.java:11 | a new category is stored under the next id and returned with it; one with a stored id replaces that row |
| CatalogRepositories.CategoryRepository.FindById | src/main/java/com/example/spring_rest_controller_2/repository/CategoryRepository.java:11 | present exactly when a row has the id, and then that row |
| CatalogRepositories.CategoryRepository.FindAll | src/main/java/com/example/spring_rest_controller_2/repository/CategoryRepository.java:12 | exactly the categories `findById` finds |
| CatalogCategories.ValidateCategory | src/main/java/com/example/spring_rest_controller_2/service/CategoryService.java:42-46 | refuses with `Nazwa kategorii jest wymagana` exactly when the name is null or blank |
| CatalogCategories.CategoryNameRule | src/main/java/com/example/spring_rest_controller_2/service/CategoryService.java:42-46 | a name is refused exactly when all its characters are up to U+0020; a null name is refused |
| CatalogCategories.CategoryService.constructor | src/main/java/com/example/spring_rest_controller_2/service/CategoryService.java:23-25 | the service over the given repository |
| CatalogCategories.CategoryService.GetCategory | src/main/java/com/example/spring_rest_controller_2/service/CategoryService.java:31-34 | the stored category, or `ResourceNotFoundException` naming the id exactly when there is none |
| CatalogCategories.CategoryService.GetAllCategories | src/main/java/com/example/spring_rest_controller_2/service/CategoryService.java:27-29 | exactly the categories `getCategory` finds |
| CatalogCategories.CategoryService.Save | src/main/java/com/example/spring_rest_controller_2/service/CategoryService.java:36-40 | a refused name persists nothing; a valid category is saved and the repository's result, findable under its id, is returned |
| CatalogService.ProductErrors | src/main/java/com/example/spring_rest_controller_2/service/ProductService.java:108-117 | the name message exactly when the name is null or blank, the price message exactly when the price is null or not positive, name first, nothing else |
| CatalogService.ValidateProduct | src/main/java/com/example/spring_rest_controller_2/service/ProductService.java:108-121 | passes exactly when both checks pass; otherwise a `ValidationException` with the errors joined by `, ` |
| CatalogService.ValidationMessages | src/main/java/com/example/spring_rest_controller_2/service/ProductService.java:108-121 | the three possible messages, the combined one being `Nazwa produktu jest wymagana, Cena musi być większa od zera` |
| CatalogService.ResolveCategory | src/main/java/com/example/spring_rest_controller_2/service/ProductService.java:82-86 | a null category or one with a null id is kept; a stored id is replaced by the stored category; an unknown id is `ResourceNotFoundException` |
| CatalogService.ResolveCategoryKeepsId | src/main/java/com/example/spring_rest_controller_2/service/ProductService.java:82-86 | a resolved category keeps the id asked for |
| CatalogService.ProductService.constructor | src/main/java/com/example/spring_rest_controller_2/service/ProductService.java:32-38 | the service over the given repositories and file service |
| CatalogService.ProductService.GetProduct | src/main/java/com/example/spring_rest_controller_2/service/ProductService.java:73-76 | the stored product, or `ResourceNotFoundException` naming the id exactly when there is none |
| CatalogService.ProductService.GetAllProducts | src/main/java/com/example/spring_rest_controller_2/service/ProductService.java:69-71 | exactly the products `getProduct` finds |
| CatalogService.ProductService.Save | src/main/java/com/example/spring_rest_controller_2/service/ProductService.java:78-89 | validation first, so a refused product touches nothing; an unknown category id persists nothing; otherwise the category is resolved and the product saved |
| CatalogService.ProductService.AddReview | src/main/java/com/example/spring_rest_controller_2/service/ProductService.java:91-97 | fails exactly for an unknown product, changing no product and no field of the review; otherwise links the review to the product and appends it, keeping earlier reviews; no other stored product changes |
| CatalogService.ProductService.DeleteProduct | src/main/java/com/example/spring_rest_controller_2/service/ProductService.java:99-106 | fails exactly for an unknown id, deleting nothing; otherwise deletes the image only when it has one, then the product |
| CatalogService.ProductService.Init | src/main/java/com/example/spring_rest_controller_2/service/ProductService.java:40-46 | seeds the sample data exactly when there are no products |
| CatalogService.ProductService.CreateSampleData | src/main/java/com/example/spring_rest_controller_2/service/ProductService.java:48-67 | saves the `Elektronika` category and then the laptop in it, each under the next id |

## Left out

- File contents, directory creation, `Files.copy`, `deleteIfExists` and `UrlResource` are reduced to a map from path to bytes. The `IOException` wrapping and `MalformedURLException` handling are left out because they depend on the operating system.
- `UUID.randomUUID()` is a parameter that must be a well-formed lower-case UUID, because the model has no randomness.
- Paths.Resolve: `Path.normalize` and `toAbsolutePath` are left out. The model parses names as `UnixPath` does, collapsing doubled `/` and dropping a trailing one, but keeps the `.` and `..` segments that `normalize` would collapse, and takes the parsed root as given. So `FileStorage.FileStorageService.LoadFile`, `DeleteFile` and the `ProductFiles.FileService` methods work on un-normalised paths. Nothing is claimed about which directory a name with `..` reaches, and no containment under the root is claimed: an absolute name such as `/etc/passwd` resolves to itself. A name holding a NUL character, which makes Java's parse throw `InvalidPathException`, is not rejected: the model keeps the character.
- ProductFiles.ValidateFile: Spring's `StringUtils.cleanPath` is taken as the identity, so `ValidateFile` and `ProductFiles.SavedName` test the raw name. A name that cleanPath rewrites, such as `a/../b.png` (cleaned to `b.png`, which the service accepts), is refused by the model with the raw name in the message; backslashes are not turned into `/` either.
- `FileService.init` only creates the directory. Its `uploadDir` field is never read by the service, so neither is modelled.
- JavaStrings.ParseInt: only ASCII digits are accepted, while `Integer.parseInt` also accepts other Unicode decimal digits.
- JavaStrings.ToLower: only ASCII capitals are lowered, and `equalsIgnoreCase` is modelled the same way. Java also folds non-ASCII letters.
- JavaStrings.Trim: characters are Unicode scalar values. Java works on UTF-16 units, which agree for every character up to U+0020.
- FileStorage.Sanitize: works per character, as the regex does per code point. A supplementary character is one `_`, as in Java.
- CSV bytes are taken as already decoded into lines, because character decoding is I/O.
- BookDao: the SQL text, `KeyHolder` and the JDBC types are replaced by the table model. `getInt` and `getLong` turning NULL into 0 do not arise, because every row has an id and a year.
- BookDao.JdbcBookDao.FindAll: a `SELECT` without `ORDER BY` is taken to return rows in insertion order, which the database does not promise.
- BookDao.IdsQuery: ids are non-null integers. A null element of the id list is not modelled.
- HTTP routing, the `Model` attributes, flash attributes and redirect strings are reduced to a view name or a redirect target with its flash message.
- `BookController`, `ProductViewController` and the commented-out `ProductController` only translate service results into HTTP responses, so they are not modelled.
- `@Transactional` rollback, `@PostConstruct` wiring and logging are framework behaviour and are not modelled. The `catch` in `createSampleData` only logs, so it is not modelled either.
- CatalogRepositories: the Spring Data repositories have no visible implementation. They are maps from id to entity, holding only the `save`, `findById`, `delete`, `count` and `findAll` that the services call. The derived queries (`findByCategory`, `findByNameContainingIgnoreCase`, `findByPriceBetween`, `findByCategoryAndMaxPrice`, `findByNameIgnoreCase`) and `ReviewRepository` are not used by the modelled services.
- CatalogRepositories.ProductRepository.Save and CatalogRepositories.CategoryRepository.Save: an entity whose non-null id matches no row is treated as new (`IsNew`): it is inserted under the next id, and for a product that id is written into the caller's object. Spring Data's `save` treats only a null id as new and merges otherwise, and a merge never rewrites the argument's id. No caller in the application saves an entity with such an id.
- CatalogRepositories.ProductRepository.FindAll: the result is a set, so the order of the returned list is not modelled.
- CatalogRepositories.CategoryRepository.FindAll: the result is a set, so the order of the returned list is not modelled.
- CatalogService.ProductService.GetAllProducts: a set, as the repository's `findAll` above.
- CatalogCategories.CategoryService.GetAllCategories: a set, as the repository's `findAll` above.
- CatalogService.ProductService.AddReview: JPA's cascaded save of the review, which assigns it an id, is not modelled. The product's row is the same object, so its new review list is what the repository holds.
- Passing a null id to the repositories' `findById` (Spring throws `IllegalArgumentException`) is not modelled, because the services take a `Long` that the model makes a plain integer.
- `Category.java` is not part of this model. A category is its id and name, the only fields the services read.
- Prices are exact reals, as `BigDecimal` compares them. Its scale and formatting are not modelled.
- `Long` overflow of the id counters is not modelled: ids are unbounded integers.
- ProductStore.ProductModel: the store holds the callers' own `Product` objects, as the code does. Changing a stored product's id through another reference outside the model would break the store's invariant, and the model does not track that.
- `BookViewDTO` is reduced to the five fields the views read. `CreateBookRequest` and the other DTOs are not modelled.
