/** `CsvImportService`: books read from an uploaded CSV file. The file must be
    named `*.csv`; its first line is a header; every later line is split on
    commas, with no quoting, and becomes a book when it has at least three
    fields and its third field is a 32-bit integer. */
module CsvImport {
  import opened Platform
  import opened JavaStrings
  import opened LibraryBook

  const CsvNameError := "Plik musi mieć rozszerzenie .csv"

  /** The book one data line describes, or `None` when the line is skipped:
      fewer than three fields after Java's split, or a third field that
      `parseInt` rejects once trimmed. */
  function ParseLine(line: string): (r: Option<BookValue>)
    ensures r.Some? ==> r.value.id.None? && r.value.coverImageFilename.None?
    ensures r.Some? ==> r.value.title.Some? && r.value.author.Some? && ',' in line
  {
    var parts := Split(line, ',');
    if |parts| < 3 then None
    else
      var year := ParseInt(Trim(parts[2]));
      if year.None? then None
      else Some(BookValue(None, Some(Trim(parts[0])), Some(Trim(parts[1])), year.value, None))
  }

  /** Which lines are accepted: those with three fields whose third is an
      integer once trimmed; so an accepted line has a comma. */
  lemma ParseLineAccepts(line: string)
    ensures ParseLine(line).Some? <==> |Split(line, ',')| >= 3 && ParseInt(Trim(Split(line, ',')[2])).Some?
    ensures ParseLine(line).Some? ==> ',' in line
  {
  }

  /** What an accepted line yields: a book with no id and no cover whose
      title, author and year are the trimmed first, second and third
      fields; title and author are comma-free and trimmed. */
  lemma ParseLineShape(line: string)
    ensures ParseLine(line).Some? ==> var b := ParseLine(line).value;
      b.id.None? && b.coverImageFilename.None? && b.title.Some? && b.author.Some?
      && ',' !in b.title.value && ',' !in b.author.value
      && Trim(b.title.value) == b.title.value && Trim(b.author.value) == b.author.value
    ensures ParseLine(line).Some? ==> var b := ParseLine(line).value;
      b.title == Some(Trim(Split(line, ',')[0])) && b.author == Some(Trim(Split(line, ',')[1]))
      && ParseInt(Trim(Split(line, ',')[2])) == Some(b.year)
  {
    var parts := Split(line, ',');
    if |parts| >= 3 {
      TrimIdempotent(parts[0]);
      TrimIdempotent(parts[1]);
      TrimDropsNothing(parts[0], ',');
      TrimDropsNothing(parts[1], ',');
    }
  }

  /** Trimming removes characters and adds none. */
  lemma TrimDropsNothing(s: string, c: char)
    requires c !in s
    ensures c !in Trim(s)
  {
    var i :| BlankSurrounded(s, i, Trim(s));
    assert forall k :: 0 <= k < |Trim(s)| ==> Trim(s)[k] == s[i + k];
  }

  /** The books of the data lines, in line order. */
  function ParseLines(lines: seq<string>): (r: seq<BookValue>)
    ensures |r| <= |lines|
  {
    if lines == [] then []
    else
      var last := ParseLine(lines[|lines| - 1]);
      ParseLines(lines[..|lines| - 1]) + (if last.Some? then [last.value] else [])
  }

  /** `importBooksFromCsv` on a file with the given original name and lines. */
  function ImportedBooks(originalFilename: Option<string>, lines: seq<string>): (r: Result<seq<BookValue>>)
    ensures r.Err? <==> originalFilename.None? || !EndsWith(originalFilename.value, ".csv")
    ensures r.Err? ==> r.error == IllegalArgument(CsvNameError)
    ensures r.Ok? ==> |r.value| < |lines| || lines == []
  {
    if originalFilename.None? || !EndsWith(originalFilename.value, ".csv") then
      Err(IllegalArgument(CsvNameError))
    else if lines == [] then Ok([])
    else Ok(ParseLines(lines[1..]))
  }

  /** The import as the service runs it: a loop over the lines that skips the
      first one and creates a new `Book` for every accepted line. */
  method ImportBooksFromCsv(originalFilename: Option<string>, lines: seq<string>)
    returns (r: Result<seq<Book>>)
    ensures r.Err? <==> ImportedBooks(originalFilename, lines).Err?
    ensures r.Err? ==> r.error == ImportedBooks(originalFilename, lines).error
    ensures r.Ok? ==> forall b :: b in r.value ==> fresh(b)
    ensures r.Ok? ==> Values(r.value) == ImportedBooks(originalFilename, lines).value
  {
    if originalFilename.None? || !EndsWith(originalFilename.value, ".csv") {
      return Err(IllegalArgument(CsvNameError));
    }
    var books: seq<Book> := [];
    var firstLine := true;
    var i := 0;
    while i < |lines|
      invariant 0 <= i <= |lines|
      invariant firstLine <==> i == 0
      invariant forall b :: b in books ==> fresh(b)
      invariant Values(books) == if i == 0 then [] else ParseLines(lines[1..i])
    {
      var line := lines[i];
      i := i + 1;
      if firstLine {
        firstLine := false;
        continue;
      }
      NextLine(lines, i);
      var parsed := ParseLine(line);
      if parsed.None? {
        continue;
      }
      books := AppendNew(books, parsed.value);
    }
    assert lines == [] || lines[1..] == lines[1..i];
    return Ok(books);
  }

  /** `books.add(new Book(title, author, year))` for a parsed line. */
  method AppendNew(books: seq<Book>, parsed: BookValue) returns (r: seq<Book>)
    requires parsed.id.None? && parsed.coverImageFilename.None?
    ensures forall b :: b in r ==> b in books || fresh(b)
    ensures Values(r) == old(Values(books)) + [parsed]
  {
    var book := new Book(parsed.title, parsed.author, parsed.year);
    r := books + [book];
    ValuesAppend(books, book);
  }

  /** The data lines read so far grow by one line at a time. */
  lemma NextLine(lines: seq<string>, i: nat)
    requires 2 <= i <= |lines|
    ensures ParseLines(lines[1..i]) == ParseLines(lines[1..i - 1])
      + (if ParseLine(lines[i - 1]).Some? then [ParseLine(lines[i - 1]).value] else [])
  {
    assert lines[1..i][..i - 2] == lines[1..i - 1];
  }

  /** The line a book with a title, an author and a year is written as. */
  function FormatLine(title: string, author: string, year: int32): string
  {
    title + "," + author + "," + IntegerText(year)
  }

  /** A text without surrounding blanks is its own trim. */
  lemma TrimOfTrimmed(s: string)
    requires s == [] || (s[0] > ' ' && s[|s| - 1] > ' ')
    ensures Trim(s) == s
  {
  }

  /** Three comma-free fields joined by commas split back into themselves,
      when the last one is not empty. */
  lemma SplitThreeFields(a: string, b: string, c: string)
    requires ',' !in a && ',' !in b && ',' !in c && c != []
    ensures Split(a + "," + b + "," + c, ',') == [a, b, c]
  {
    var line := a + "," + b + "," + c;
    assert line == a + [','] + (b + [','] + c);
    PiecesOfField(a, ',', b + [','] + c);
    PiecesOfField(b, ',', c);
    PiecesWithoutSeparator(c, ',');
    assert line[|a|] == ',';
  }

  /** The decimal text of an `int` is a sign and digits: no comma and no
      blank at either end. */
  lemma IntegerTextIsPlain(n: int32)
    ensures IntegerText(n) != [] && ',' !in IntegerText(n)
    ensures Trim(IntegerText(n)) == IntegerText(n)
  {
    var y := IntegerText(n);
    var d := NaturalText(if n < 0 then -(n as int) else n);
    assert y == d || y == ['-'] + d;
    forall k | 0 <= k < |y| ensures y[k] == '-' || IsAsciiDigit(y[k]) {
      if y != d && k > 0 { assert y[k] == d[k - 1]; }
    }
    TrimOfTrimmed(y);
  }

  /** Reading back a written line gives the book, when the title and author
      hold no comma and no surrounding blanks. */
  lemma ParseFormatLine(title: string, author: string, year: int32)
    requires ',' !in title && ',' !in author
    requires Trim(title) == title && Trim(author) == author
    ensures ParseLine(FormatLine(title, author, year))
      == Some(BookValue(None, Some(title), Some(author), year, None))
  {
    var line := FormatLine(title, author, year);
    FormatLineFields(title, author, year);
    ParseLineAccepts(line);
    ParseLineShape(line);
  }

  /** A written line splits into its three fields, each its own trim, and
      the third parses back to the year. */
  lemma FormatLineFields(title: string, author: string, year: int32)
    requires ',' !in title && ',' !in author
    requires Trim(title) == title && Trim(author) == author
    ensures var parts := Split(FormatLine(title, author, year), ',');
      |parts| == 3 && Trim(parts[0]) == title && Trim(parts[1]) == author
      && ParseInt(Trim(parts[2])) == Some(year)
  {
    var text := IntegerText(year);
    IntegerTextIsPlain(year);
    SplitThreeFields(title, author, text);
    ParseIntegerText(year);
  }

  /** Fields after the third do not change what a line yields. */
  lemma ParseLineIgnoresExtraFields(line: string, extra: string)
    requires |Split(line, ',')| >= 3
    ensures ParseLine(line + "," + extra) == ParseLine(line)
  {
    SplitKeepsLeadingFields(line, ',', extra, 3);
    var a := Split(line + "," + extra, ',');
    var b := Split(line, ',');
    assert a[0] == a[..3][0] == b[..3][0] == b[0];
    assert a[1] == a[..3][1] == b[..3][1] == b[1];
    assert a[2] == a[..3][2] == b[..3][2] == b[2];
  }

  /** Importing a concatenation of data lines imports each part in turn: the
      books come out in the order of their lines. */
  lemma {:induction false} ParseLinesAppend(a: seq<string>, b: seq<string>)
    ensures ParseLines(a + b) == ParseLines(a) + ParseLines(b)
  {
    if b != [] {
      assert (a + b)[..|a + b| - 1] == a + b[..|b| - 1];
      assert (a + b)[|a + b| - 1] == b[|b| - 1];
      ParseLinesAppend(a, b[..|b| - 1]);
    } else {
      assert a + b == a;
    }
  }

  /** The header line never yields a book, whatever it holds. */
  lemma FirstLineIgnored(originalFilename: Option<string>, header: string, other: string, lines: seq<string>)
    ensures ImportedBooks(originalFilename, [header] + lines) == ImportedBooks(originalFilename, [other] + lines)
  {
    assert ([header] + lines)[1..] == lines == ([other] + lines)[1..];
  }

  /** A trailing empty field is dropped before the fields are counted, so
      `A,B,` is skipped. */
  lemma TrailingEmptyFieldSkipped()
    ensures ParseLine("A,B,") == None
  {
    assert "A,B," == "A" + [','] + ("B" + [','] + "");
    PiecesOfField("A", ',', "B" + [','] + "");
    PiecesOfField("B", ',', "");
    assert Split("A,B,", ',') == ["A", "B"];
  }

  /** An empty middle field is kept, so `A,,2020` has an empty author. */
  lemma EmptyAuthorKept()
    ensures ParseLine("A,,2020") == Some(BookValue(None, Some("A"), Some(""), 2020, None))
  {
    assert NaturalText(20) == "20";
    assert NaturalText(202) == "202";
    assert IntegerText(2020) == "2020";
    assert FormatLine("A", "", 2020) == "A,,2020";
    TrimOfTrimmed("A");
    TrimOfTrimmed("");
    ParseFormatLine("A", "", 2020);
  }

  /** The name check is case-sensitive: `books.CSV` is rejected. */
  lemma UpperCaseExtensionRejected(lines: seq<string>)
    ensures ImportedBooks(Some("books.CSV"), lines) == Err(IllegalArgument(CsvNameError))
  {
    assert "books.CSV"[|"books.CSV"| - 4..] != ".csv";
  }
}
